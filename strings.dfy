/**
  Joining strings with a one-character separator, as `join` does for the
  report's paths and as `to_str` does for a path's components.
*/
module Strings {
  /** `ts` with `sep` between every two neighbours. */
  function JoinWith(sep: char, ts: seq<string>): (r: string)
    ensures |ts| >= 1 ==> |r| >= |ts[0]| && r[..|ts[0]|] == ts[0]
    ensures |ts| >= 2 ==> |r| > |ts[0]| && r[|ts[0]|] == sep
  {
    if |ts| == 0 then []
    else if |ts| == 1 then ts[0]
    else ts[0] + [sep] + JoinWith(sep, ts[1..])
  }

  lemma JoinCons(sep: char, ts: seq<string>)
    requires |ts| >= 2
    ensures JoinWith(sep, ts) == ts[0] + ([sep] + JoinWith(sep, ts[1..]))
  {
    var rest := JoinWith(sep, ts[1..]);
    assert JoinWith(sep, ts) == ts[0] + [sep] + rest;
    Associate3(ts[0], [sep], rest);
  }

  /** Appending a string to a non-empty list appends the separator and that
      string to the joined text. */
  lemma {:induction false} JoinSnoc(sep: char, ts: seq<string>, t: string)
    requires |ts| >= 1
    ensures JoinWith(sep, ts + [t]) == JoinWith(sep, ts) + [sep] + t
    decreases |ts|
  {
    var us := ts + [t];
    assert us[0] == ts[0];
    if |ts| == 1 {
      assert us[1..] == [t];
    } else {
      assert us[1..] == ts[1..] + [t];
      JoinSnoc(sep, ts[1..], t);
      var rest := JoinWith(sep, ts[1..]);
      assert JoinWith(sep, us) == ts[0] + [sep] + (rest + [sep] + t);
      Associate3(ts[0] + [sep], rest + [sep], t);
      Associate3(ts[0] + [sep], rest, [sep]);
    }
  }

  lemma Associate3(a: string, b: string, c: string)
    ensures a + b + c == a + (b + c)
  {
  }
}
