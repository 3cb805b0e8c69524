/**
  Hashing one file: open it, read it through a 1 MiB buffer, feed every chunk
  read to an MD5 accumulator, and finish the digest when a read returns no
  bytes. A failed open or a failed read ends the hashing with an error.

  The file is what successive reads into the buffer return: a run of
  non-empty chunks, none longer than the buffer, then either the end of the
  file or a read error. The MD5 computation itself is the parameter
  `finish`, from the bytes fed to the accumulator to the 16-byte digest.
*/
module Hashing {
  import opened Wrappers
  import opened Bytes

  /** The size of the read buffer: 1 MiB. */
  const BUF_SIZE: nat := 1024 * 1024

  /** What one successful, non-final read can return. */
  type Chunk = c: seq<byte> | 0 < |c| <= BUF_SIZE witness [0]

  type Digest16 = d: seq<byte> | |d| == 16 witness seq(16, _ => 0)

  datatype IoError = OpenError | ReadError

  /** How reading ends once the chunks are used up: a read that returns
      zero bytes, or a read that fails. */
  datatype Ending = EndOfFile | ReadFailed

  datatype Stream = Stream(chunks: seq<Chunk>, ending: Ending)

  /** `File::open` either fails or yields the file's stream of reads. */
  datatype Opening = OpenFailed | Opened(stream: Stream)

  /** The bytes of a run of chunks, in order. */
  function Flatten(cs: seq<Chunk>): (r: seq<byte>)
    ensures |cs| > 0 ==> |r| > 0
  {
    if cs == [] then [] else cs[0] + Flatten(cs[1..])
  }

  /** What hashing a file means: an error if the open or any read fails,
      otherwise the digest of all of the file's bytes, in order. */
  function Md5Of(f: Opening, finish: seq<byte> -> Digest16): Result<Digest16, IoError> {
    match f
    case OpenFailed => Failure(OpenError)
    case Opened(Stream(chunks, EndOfFile)) => Success(finish(Flatten(chunks)))
    case Opened(Stream(_, ReadFailed)) => Failure(ReadError)
  }

  /** An open file: the reads it has not yet answered. */
  class Reader {
    var pending: seq<Chunk>
    const ending: Ending

    constructor (s: Stream)
      ensures pending == s.chunks && ending == s.ending
    {
      pending := s.chunks;
      ending := s.ending;
    }

    /**
      `read(&mut buf)`: the next chunk is copied to the front of `buf` and
      its length returned; with no chunk left, the end of the file reads as
      zero bytes and a failure as an error.
    */
    method Read(buf: array<byte>) returns (r: Result<nat, IoError>)
      requires buf.Length == BUF_SIZE
      modifies this, buf
      ensures old(pending) != [] ==>
        r == Success(|old(pending)[0]|) && buf[..r.value] == old(pending)[0] && pending == old(pending)[1..]
      ensures old(pending) == [] && ending == EndOfFile ==> r == Success(0) && pending == []
      ensures old(pending) == [] && ending == ReadFailed ==> r == Failure(ReadError) && pending == []
    {
      if pending == [] {
        r := if ending == EndOfFile then Success(0) else Failure(ReadError);
      } else {
        var c := pending[0];
        for i := 0 to |c|
          invariant buf[..i] == c[..i]
          modifies buf
        {
          buf[i] := c[i];
        }
        pending := pending[1..];
        r := Success(|c|);
      }
    }
  }

  /** The MD5 accumulator: its state is the bytes fed to it so far. */
  class Md5 {
    const finish: seq<byte> -> Digest16
    var fed: seq<byte>

    /** `Md5::new()`: nothing fed yet. */
    constructor (finish: seq<byte> -> Digest16)
      ensures this.finish == finish && fed == []
    {
      this.finish := finish;
      fed := [];
    }

    /** `input(data)`: `data` is appended to what was fed. */
    method Input(data: seq<byte>)
      modifies this
      ensures fed == old(fed) + data
    {
      fed := fed + data;
    }

    /** `result(&mut hash)`: the digest of everything fed. */
    method Result() returns (d: Digest16)
      ensures d == finish(fed)
    {
      d := finish(fed);
    }
  }

  /**
    `file_md5`: the digest of the whole file when it opens and every read
    succeeds up to the end; the error of the open or the first failing read
    otherwise.
  */
  method FileMd5(f: Opening, finish: seq<byte> -> Digest16) returns (r: Result<Digest16, IoError>)
    ensures r == Md5Of(f, finish)
    ensures r.Success? <==> f.Opened? && f.stream.ending == EndOfFile
    ensures r.Success? ==> r.value == finish(Flatten(f.stream.chunks))
  {
    if f.OpenFailed? {
      return Failure(OpenError);
    }
    var reader := new Reader(f.stream);
    var hasher := new Md5(finish);
    var buf := new byte[BUF_SIZE];
    while true
      invariant hasher.fed + Flatten(reader.pending) == Flatten(f.stream.chunks)
      invariant reader.ending == f.stream.ending && hasher.finish == finish
      decreases |reader.pending|
    {
      ghost var before := reader.pending;
      var n := reader.Read(buf);
      match n {
        case Failure(e) =>
          return Failure(e);
        case Success(0) =>
          assert before == [];
          assert f.stream.ending == EndOfFile;
          assert hasher.fed == Flatten(f.stream.chunks);
          var hash := hasher.Result();
          return Success(hash);
        case Success(k) =>
          hasher.Input(buf[0..k]);
          FlattenCons(before);
      }
    }
  }

  lemma FlattenCons(cs: seq<Chunk>)
    requires cs != []
    ensures Flatten(cs) == cs[0] + Flatten(cs[1..])
  {
  }
}
