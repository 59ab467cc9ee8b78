/**
 * `read_line_bounded`: one JSON-RPC line from a buffered socket, whatever chunks
 * the bytes arrive in. The daemon and the gateway carry the same code.
 */
module LineReader {
  import opened Common

  const NEWLINE: byte := 10

  datatype LineError = TooLong | NotUtf8

  /** The bytes up to and including the first newline, or all of them. */
  function LineEnd(s: Bytes): (n: nat)
    ensures n <= |s|
    ensures forall i :: 0 <= i < n - 1 ==> s[i] != NEWLINE
    ensures n == |s| || (n > 0 && s[n - 1] == NEWLINE)
    ensures s == [] <==> n == 0
  {
    if s == [] then 0 else if s[0] == NEWLINE then 1 else 1 + LineEnd(s[1..])
  }

  /** What one call returns, as a function of the stream alone. */
  function ReadLine(s: Bytes, max: nat, utf8: Bytes -> bool): Result<Bytes, LineError> {
    var n := LineEnd(s);
    if n > max then Err(TooLong) else if !utf8(s[..n]) then Err(NotUtf8) else Ok(s[..n])
  }

  lemma {:induction false} LineEndOf(body: Bytes, rest: Bytes)
    requires NEWLINE !in body
    ensures LineEnd(body + [10] + rest) == |body| + 1
    ensures LineEnd(body) == |body|
  {
    var s := body + [10] + rest;
    if body != [] {
      assert s[1..] == body[1..] + [10] + rest;
      assert body == [body[0]] + body[1..];
      LineEndOf(body[1..], rest);
    }
  }

  /**
   * A line is delivered, newline included, when that fits in `max` bytes and is
   * valid UTF-8, whatever follows it; at the end of file what is left is the line.
   */
  lemma ReadLineExactly(body: Bytes, rest: Bytes, max: nat, utf8: Bytes -> bool)
    requires 10 !in body
    ensures ReadLine(body + [10] + rest, max, utf8) ==
            if |body| + 1 > max then Err(TooLong) else if utf8(body + [10]) then Ok(body + [10]) else Err(NotUtf8)
    ensures ReadLine(body, max, utf8) ==
            if |body| > max then Err(TooLong) else if utf8(body) then Ok(body) else Err(NotUtf8)
  {
    LineEndOf(body, rest);
    assert (body + [10] + rest)[..|body| + 1] == body + [10];
    assert body[..|body|] == body;
  }

  function Flatten(chunks: seq<Bytes>): Bytes {
    if chunks == [] then [] else chunks[0] + Flatten(chunks[1..])
  }

  lemma {:induction false} LineEndWithin(chunk: Bytes, rest: Bytes)
    requires NEWLINE in chunk
    ensures LineEnd(chunk + rest) == LineEnd(chunk) > 0 && chunk[LineEnd(chunk) - 1] == NEWLINE
  {
    if chunk[0] != NEWLINE {
      assert chunk == [chunk[0]] + chunk[1..];
      LineEndWithin(chunk[1..], rest);
      assert (chunk + rest)[1..] == chunk[1..] + rest;
    }
  }

  lemma {:induction false} LineEndPast(chunk: Bytes, rest: Bytes)
    requires NEWLINE !in chunk
    ensures LineEnd(chunk + rest) == |chunk| + LineEnd(rest)
  {
    if chunk == [] {
      assert chunk + rest == rest;
    } else {
      LineEndPast(chunk[1..], rest);
      assert (chunk + rest)[1..] == chunk[1..] + rest;
    }
  }

  lemma LineEndOfChunk(chunk: Bytes, rest: Bytes)
    ensures NEWLINE in chunk ==> LineEnd(chunk + rest) == LineEnd(chunk) && chunk[LineEnd(chunk) - 1] == NEWLINE
    ensures NEWLINE !in chunk ==> LineEnd(chunk + rest) == |chunk| + LineEnd(rest)
  {
    if NEWLINE in chunk {
      LineEndWithin(chunk, rest);
    } else {
      LineEndPast(chunk, rest);
    }
  }

  /** A buffered reader: the chunks its socket will still deliver, none of them empty. */
  class BufReader {
    var chunks: seq<Bytes>

    ghost predicate Valid()
      reads this
    {
      forall i :: 0 <= i < |chunks| ==> chunks[i] != []
    }

    function Stream(): Bytes
      reads this
    {
      Flatten(chunks)
    }

    constructor (chunks: seq<Bytes>)
      requires forall i :: 0 <= i < |chunks| ==> chunks[i] != []
      ensures Valid() && Stream() == Flatten(chunks)
    {
      this.chunks := chunks;
    }

    /** The current chunk; empty only at end of file. */
    method FillBuf() returns (available: Bytes)
      requires Valid()
      ensures available == (if chunks == [] then [] else chunks[0])
      ensures available == [] <==> Stream() == []
    {
      available := if chunks == [] then [] else chunks[0];
    }

    method Consume(n: nat)
      requires Valid() && n <= if chunks == [] then 0 else |chunks[0]|
      modifies this
      ensures Valid() && n <= |old(Stream())| && Stream() == old(Stream())[n..]
      ensures n > 0 && n == |old(chunks)[0]| ==> chunks == old(chunks)[1..]
      ensures n == 0 ==> chunks == old(chunks)
    {
      if n > 0 {
        var rest := chunks[0][n..];
        chunks := if rest == [] then chunks[1..] else [rest] + chunks[1..];
      }
    }

    /**
     * The verdict and the line depend on the byte stream only. A delivered line
     * is removed whole; a refused long one loses no byte past its newline.
     */
    method ReadLineBounded(max: nat, utf8: Bytes -> bool) returns (line: Result<Bytes, LineError>)
      requires Valid()
      modifies this
      ensures Valid()
      ensures line == ReadLine(old(Stream()), max, utf8)
      ensures line != Err(TooLong) ==> Stream() == old(Stream())[LineEnd(old(Stream()))..]
      ensures line == Err(TooLong) ==>
                exists k :: max < k <= LineEnd(old(Stream())) && Stream() == old(Stream())[k..]
    {
      ghost var s := Stream();
      var buf: Bytes := [];
      var done := false;
      while !done
        invariant Valid() && s == buf + Stream()
        invariant |buf| <= max
        invariant LineEnd(s) == |buf| + if done then 0 else LineEnd(Stream())
        decreases !done, |chunks|
      {
        buf, done := Extend(buf);
        if |buf| > max {
          Divide(s, buf, Stream());
          return Err(TooLong);
        }
      }
      Divide(s, buf, Stream());
      if !utf8(buf) {
        return Err(NotUtf8);
      }
      return Ok(buf);
    }

    /** One round of the loop: append the current chunk, or its part through a newline, and consume it. */
    method Extend(buf0: Bytes) returns (buf: Bytes, done: bool)
      requires Valid()
      modifies this
      ensures Valid() && buf + Stream() == buf0 + old(Stream())
      ensures |buf| + (if done then 0 else LineEnd(Stream())) == |buf0| + LineEnd(old(Stream()))
      ensures !done ==> |chunks| < |old(chunks)|
    {
      ghost var from := Stream();
      var available := FillBuf();
      var consumed := 0;
      ghost var rest := if chunks == [] then [] else Flatten(chunks[1..]);
      assert from == available + rest;
      LineEndOfChunk(available, rest);
      if available == [] {
        buf, done := buf0, true;
      } else if NEWLINE in available {
        var i := Position(available);
        buf := buf0 + available[..i + 1];
        done, consumed := true, i + 1;
      } else {
        assert available[..|available|] == available;
        buf := buf0 + available;
        done, consumed := false, |available|;
      }
      assert available[..consumed] == from[..consumed];
      TakeFront(buf0, from, consumed);
      Consume(consumed);
      assert !done ==> Stream() == rest;
    }

    /** The position of the first newline of a chunk that has one. */
    static method Position(available: Bytes) returns (i: nat)
      requires NEWLINE in available
      ensures i + 1 == LineEnd(available) && i < |available|
    {
      i := 0;
      while i < |available| && available[i] != NEWLINE
        invariant i <= |available| && NEWLINE !in available[..i]
      {
        assert available[..i + 1] == available[..i] + [available[i]];
        i := i + 1;
      }
      assert available[..|available|] == available;
      assert forall k :: 0 <= k < i ==> available[k] == available[..i][k];
    }
  }

  lemma TakeFront(buf: Bytes, from: Bytes, n: nat)
    requires n <= |from|
    ensures buf + from[..n] + from[n..] == buf + from
  {
    assert from == from[..n] + from[n..];
  }

  lemma Divide(s: Bytes, front: Bytes, back: Bytes)
    requires s == front + back
    ensures front == s[..|front|] && back == s[|front|..]
  {
  }

  // ------------------------------------------------------------------
  // A whole connection
  // ------------------------------------------------------------------

  /** The lines a connection loop reads until end of file or the first refusal. */
  function Lines(s: Bytes, max: nat, utf8: Bytes -> bool): seq<Bytes>
    decreases |s|
  {
    var r := ReadLine(s, max, utf8);
    if r.Err? || r.value == [] then [] else [r.value] + Lines(s[LineEnd(s)..], max, utf8)
  }

  /** What the connection leaves unread. */
  function Unread(s: Bytes, max: nat, utf8: Bytes -> bool): Bytes
    decreases |s|
  {
    var r := ReadLine(s, max, utf8);
    if r.Err? || r.value == [] then s else Unread(s[LineEnd(s)..], max, utf8)
  }

  /** The lines read, in order, are a prefix of the stream: nothing is lost, repeated or reordered. */
  lemma {:induction false} LinesArePrefix(s: Bytes, max: nat, utf8: Bytes -> bool)
    ensures Flatten(Lines(s, max, utf8)) + Unread(s, max, utf8) == s
    decreases |s|
  {
    var n := LineEnd(s);
    var r := ReadLine(s, max, utf8);
    if r.Ok? && r.value != [] {
      LinesArePrefix(s[n..], max, utf8);
      Regroup(s, n, Lines(s[n..], max, utf8), Unread(s[n..], max, utf8));
    } else {
      assert [] + s == s;
    }
  }

  lemma Regroup(s: Bytes, n: nat, lines: seq<Bytes>, unread: Bytes)
    requires n <= |s| && Flatten(lines) + unread == s[n..]
    ensures Flatten([s[..n]] + lines) + unread == s
  {
    FlattenCons(s[..n], lines);
    assert s == s[..n] + s[n..];
    assert s[..n] + Flatten(lines) + unread == s[..n] + (Flatten(lines) + unread);
  }

  lemma FlattenCons(line: Bytes, lines: seq<Bytes>)
    ensures Flatten([line] + lines) == line + Flatten(lines)
  {
    assert ([line] + lines)[1..] == lines;
  }

  /** The reading goes on to the end of file or to the first line that is refused. */
  lemma {:induction false} StopsOnlyAtRefusal(s: Bytes, max: nat, utf8: Bytes -> bool)
    ensures Unread(s, max, utf8) == [] || ReadLine(Unread(s, max, utf8), max, utf8).Err?
    decreases |s|
  {
    var r := ReadLine(s, max, utf8);
    if r.Ok? && r.value != [] {
      StopsOnlyAtRefusal(s[LineEnd(s)..], max, utf8);
    }
  }

  /** Every line but one cut off by the end of file ends in its only newline. */
  lemma {:induction false} LinesAreLines(s: Bytes, max: nat, utf8: Bytes -> bool, k: nat)
    requires k < |Lines(s, max, utf8)|
    ensures var line := Lines(s, max, utf8)[k];
            && 0 < |line| <= max && utf8(line)
            && NEWLINE !in line[..|line| - 1]
            && (line[|line| - 1] == NEWLINE || (k == |Lines(s, max, utf8)| - 1 && Unread(s, max, utf8) == []))
    decreases |s|
  {
    var n := LineEnd(s);
    if k > 0 {
      LinesAreLines(s[n..], max, utf8, k - 1);
    } else if s[n - 1] != NEWLINE {
      assert s[n..] == [];
    }
  }
}
