/**
  Escaping of printed paths. Every '\' is replaced by "\\" and then every
  space by "\ ", so that a report line can be cut into paths at the spaces
  that are not escaped.
*/
module Escaping {
  import opened Wrappers
  import opened Strings

  /** `str::replace` with a one-character pattern: every occurrence of `c`,
      from left to right, is replaced by `replacement`. */
  function Replace(s: string, c: char, replacement: string): (r: string)
    ensures c !in replacement ==> c !in r
    ensures c !in s ==> r == s
  {
    if s == [] then []
    else (if s[0] == c then replacement else [s[0]]) + Replace(s[1..], c, replacement)
  }

  /** Each occurrence of `c` is traded for the replacement, so the length
      changes by `|replacement| - 1` per occurrence. */
  lemma {:induction false} ReplaceLength(s: string, c: char, replacement: string)
    ensures |Replace(s, c, replacement)| == |s| + multiset(s)[c] * (|replacement| - 1)
  {
    if s != [] {
      var m, k := multiset(s[1..])[c], |replacement| - 1;
      ReplaceLength(s[1..], c, replacement);
      assert multiset(s) == multiset([s[0]]) + multiset(s[1..]) by {
        assert s == [s[0]] + s[1..];
      }
      if s[0] == c {
        assert |Replace(s, c, replacement)| == k + 1 + (|s| - 1) + m * k;
        assert multiset(s)[c] == m + 1;
        Distribute(m, k);
      } else {
        assert |Replace(s, c, replacement)| == 1 + (|s| - 1) + m * k;
        assert multiset(s)[c] == m;
      }
    }
  }

  lemma Distribute(m: int, k: int)
    ensures (m + 1) * k == m * k + k
  {
  }

  /** The escaping applied to each printed path, in the program's order:
      backslashes first, then spaces. */
  function Escape(s: string): (r: string)
    ensures |r| >= |s|
    ensures '\\' !in s && ' ' !in s ==> r == s
  {
    var once := Replace(s, '\\', "\\\\");
    ReplaceLength(s, '\\', "\\\\");
    ReplaceLength(once, ' ', "\\ ");
    Replace(once, ' ', "\\ ")
  }

  /** The escape of a single character. */
  function EscapeChar(c: char): string {
    if c == '\\' then "\\\\" else if c == ' ' then "\\ " else [c]
  }

  /** Escaping character by character, as a reader of the output undoes it. */
  function EscapeEach(s: string): string {
    if s == [] then [] else EscapeChar(s[0]) + EscapeEach(s[1..])
  }

  lemma {:induction false} ReplaceAppend(a: string, b: string, c: char, replacement: string)
    ensures Replace(a + b, c, replacement) == Replace(a, c, replacement) + Replace(b, c, replacement)
  {
    if a != [] {
      var head := if a[0] == c then replacement else [a[0]];
      assert (a + b)[0] == a[0] && (a + b)[1..] == a[1..] + b;
      assert Replace(a + b, c, replacement) == head + Replace(a[1..] + b, c, replacement);
      assert Replace(a, c, replacement) == head + Replace(a[1..], c, replacement);
      ReplaceAppend(a[1..], b, c, replacement);
      Associate3(head, Replace(a[1..], c, replacement), Replace(b, c, replacement));
    } else {
      assert a + b == b;
    }
  }

  /** The two passes of Escape act like one pass escaping each character:
      the second pass never touches the backslashes the first one added,
      and the first pass adds no spaces. */
  lemma {:induction false} EscapeIsPerCharacter(s: string)
    ensures Escape(s) == EscapeEach(s)
  {
    if s != [] {
      EscapeIsPerCharacter(s[1..]);
      assert s == [s[0]] + s[1..];
      ReplaceAppend([s[0]], s[1..], '\\', "\\\\");
      var once := Replace([s[0]], '\\', "\\\\");
      ReplaceAppend(once, Replace(s[1..], '\\', "\\\\"), ' ', "\\ ");
      if s[0] == '\\' {
        assert Replace(once, ' ', "\\ ") == "\\\\";
      } else if s[0] == ' ' {
        assert Replace(once, ' ', "\\ ") == "\\ ";
      } else {
        assert Replace(once, ' ', "\\ ") == [s[0]];
      }
    }
  }

  /** Reads an escaped token back: "\\" gives '\', "\ " gives ' ', any other
      character stands for itself; a lone space or any other use of '\' is
      not something Escape produces, and gives None. */
  function Unescape(t: string): Option<string>
    decreases |t|
  {
    if t == [] then Some([])
    else if t[0] == ' ' then None
    else if t[0] == '\\' then
      if |t| >= 2 && (t[1] == '\\' || t[1] == ' ') then
        match Unescape(t[2..])
        case Some(rest) => Some([t[1]] + rest)
        case None => None
      else None
    else
      match Unescape(t[1..])
      case Some(rest) => Some([t[0]] + rest)
      case None => None
  }

  lemma {:induction false} UnescapeEscapeEach(s: string)
    ensures Unescape(EscapeEach(s)) == Some(s)
  {
    if s != [] {
      UnescapeEscapeEach(s[1..]);
      var t := EscapeEach(s);
      var n := |EscapeChar(s[0])|;
      assert t[n..] == EscapeEach(s[1..]);
      assert s == [s[0]] + s[1..];
    }
  }

  lemma {:induction false} EscapeEachUnescape(t: string)
    requires Unescape(t).Some?
    ensures EscapeEach(Unescape(t).value) == t
    decreases |t|
  {
    if t != [] {
      var s := Unescape(t).value;
      var n := if t[0] == '\\' then 2 else 1;
      EscapeEachUnescape(t[n..]);
      assert s[1..] == Unescape(t[n..]).value;
      assert t == t[..n] + t[n..];
    }
  }

  /** Unescaping is exactly the inverse of escaping: a token unescapes to `s`
      if and only if it is the escape of `s`. */
  lemma UnescapeInvertsEscape(t: string, s: string)
    ensures Unescape(t) == Some(s) <==> t == Escape(s)
  {
    EscapeIsPerCharacter(s);
    if t == Escape(s) {
      UnescapeEscapeEach(s);
    }
    if Unescape(t) == Some(s) {
      EscapeEachUnescape(t);
    }
  }

  function EscapeAll(ps: seq<string>): (r: seq<string>)
    ensures |r| == |ps|
    ensures forall i :: 0 <= i < |ps| ==> r[i] == Escape(ps[i])
  {
    seq(|ps|, i requires 0 <= i < |ps| => Escape(ps[i]))
  }

  /** How a reader cuts a line into tokens: at every space that is not
      escaped; the tokens keep their escapes. */
  function Split(t: string): (r: seq<string>)
    ensures |r| >= 1
    decreases |t|
  {
    if t == [] then [[]]
    else if t[0] == ' ' then [[]] + Split(t[1..])
    else
      var n := if t[0] == '\\' && |t| >= 2 then 2 else 1;
      Glue(t[..n], Split(t[n..]))
  }

  /** Puts `p` in front of the first of the tokens `r`. */
  function Glue(p: string, r: seq<string>): (g: seq<string>)
    requires |r| >= 1
    ensures |g| == |r|
  {
    [p + r[0]] + r[1..]
  }

  lemma GlueGlue(p: string, q: string, r: seq<string>)
    requires |r| >= 1
    ensures Glue(p, Glue(q, r)) == Glue(p + q, r)
  {
    assert p + (q + r[0]) == (p + q) + r[0];
  }

  /** Unescapes every token; None if one of them is not an escaped token. */
  function UnescapeAll(ts: seq<string>): Option<seq<string>> {
    if ts == [] then Some([])
    else
      match (Unescape(ts[0]), UnescapeAll(ts[1..]))
      case (Some(p), Some(ps)) => Some([p] + ps)
      case _ => None
  }

  /** Reads a line of space-separated escaped tokens back into strings. */
  function ParseTokens(line: string): Option<seq<string>> {
    UnescapeAll(Split(line))
  }

  /** An escaped string is never cut: it stays glued to whatever follows it
      up to the next unescaped space. */
  lemma {:induction false} SplitAfterEscaped(s: string, rest: string)
    ensures Split(EscapeEach(s) + rest) == Glue(EscapeEach(s), Split(rest))
  {
    var q := Split(rest);
    if s == [] {
      assert EscapeEach(s) + rest == rest;
      assert [] + q[0] == q[0];
      assert [q[0]] + q[1..] == q;
    } else {
      var e, tail := EscapeChar(s[0]), EscapeEach(s[1..]) + rest;
      assert EscapeEach(s) + rest == e + tail;
      SplitUnglued(e, tail);
      SplitAfterEscaped(s[1..], rest);
      GlueGlue(e, EscapeEach(s[1..]), q);
    }
  }

  /** An escaped path holds no space a reader would cut at: it reads as a
      single token. */
  lemma EscapedTokenIsNotCut(s: string)
    ensures Split(Escape(s)) == [Escape(s)]
  {
    EscapeIsPerCharacter(s);
    SplitAfterEscaped(s, []);
    assert EscapeEach(s) + [] == EscapeEach(s);
  }

  /** One escaped character in front of a line joins its first token. */
  lemma SplitUnglued(e: string, tail: string)
    requires |e| >= 1 && e[0] != ' ' && (e[0] == '\\' ==> |e| == 2) && (e[0] != '\\' ==> |e| == 1)
    ensures Split(e + tail) == Glue(e, Split(tail))
  {
    var t := e + tail;
    assert t[..|e|] == e && t[|e|..] == tail;
  }

  lemma GlueEmpty(p: string, r: seq<string>)
    ensures Glue(p, [[]] + r) == [p] + r
  {
    assert p + [] == p;
  }

  lemma SplitAtSpace(tail: string)
    ensures Split(" " + tail) == [[]] + Split(tail)
  {
    assert (" " + tail)[1..] == tail;
  }

  /** A line of escaped strings joined by single spaces splits into exactly
      those escaped strings. */
  lemma {:induction false} SplitJoinEscaped(ps: seq<string>)
    requires |ps| >= 1
    ensures Split(JoinWith(' ', EscapeAll(ps))) == EscapeAll(ps)
  {
    EscapeIsPerCharacter(ps[0]);
    if |ps| == 1 {
      SplitAfterEscaped(ps[0], []);
      assert EscapeEach(ps[0]) + [] == EscapeEach(ps[0]);
    } else {
      SplitJoinEscaped(ps[1..]);
      SplitJoinStep(ps);
    }
  }

  lemma SplitJoinStep(ps: seq<string>)
    requires |ps| >= 2
    requires Split(JoinWith(' ', EscapeAll(ps[1..]))) == EscapeAll(ps[1..])
    ensures Split(JoinWith(' ', EscapeAll(ps))) == EscapeAll(ps)
  {
    var es := EscapeAll(ps);
    EscapeIsPerCharacter(ps[0]);
    assert es[1..] == EscapeAll(ps[1..]);
    var tail := JoinWith(' ', es[1..]);
    JoinCons(' ', es);
    SplitAfterEscaped(ps[0], " " + tail);
    SplitAtSpace(tail);
    GlueEmpty(es[0], es[1..]);
    assert [es[0]] + es[1..] == es;
  }

  lemma {:induction false} UnescapeAllEscapeAll(ps: seq<string>)
    ensures UnescapeAll(EscapeAll(ps)) == Some(ps)
  {
    if ps != [] {
      UnescapeInvertsEscape(Escape(ps[0]), ps[0]);
      assert EscapeAll(ps)[1..] == EscapeAll(ps[1..]);
      UnescapeAllEscapeAll(ps[1..]);
      assert ps == [ps[0]] + ps[1..];
    }
  }

  /** Round trip of a printed list: escaping each string and joining them
      with spaces, then cutting and unescaping, gives the strings back. */
  lemma ParseJoinedEscaped(ps: seq<string>)
    requires |ps| >= 1
    ensures ParseTokens(JoinWith(' ', EscapeAll(ps))) == Some(ps)
  {
    SplitJoinEscaped(ps);
    UnescapeAllEscapeAll(ps);
  }
}
