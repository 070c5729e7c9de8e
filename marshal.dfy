/**
 * How the failed specs cross from the spec-running child to the parent:
 * the child writes `Marshal.dump(list) + "\n"` on a pipe, the parent reads
 * one line and `Marshal.load`s it. Only the subset of Ruby's Marshal
 * format 4.8 that an array of UTF-8 strings produces is modelled: the
 * header, an array, strings carrying the encoding instance variable, and
 * the symbol `:E` with its back-reference.
 */
module Marshal {
  import opened Wrappers
  import opened Text

  /** The line separator `gets` stops at. */
  const NewLine: Byte := 10

  /** Marshal's error for data that ends before the value does. */
  const TooShort: string := "marshal data too short"

  /** Anything outside the modelled subset. */
  const Unsupported: string := "unsupported marshal data"

  // ---------------------------------------------------------------------------
  // Integers (`w_long` / `r_long`)
  // ---------------------------------------------------------------------------

  function Pow256(k: nat): nat {
    if k == 0 then 1 else 256 * Pow256(k - 1)
  }

  /** `k` bytes, least significant first. */
  function LittleEndian(n: nat, k: nat): (bs: seq<Byte>)
    ensures |bs| == k
  {
    if k == 0 then [] else [n % 256] + LittleEndian(n / 256, k - 1)
  }

  function FromLittleEndian(bs: seq<Byte>): nat {
    if bs == [] then 0 else bs[0] + 256 * FromLittleEndian(bs[1..])
  }

  lemma {:induction false} LittleEndianRoundTrip(n: nat, k: nat)
    requires n < Pow256(k)
    ensures FromLittleEndian(LittleEndian(n, k)) == n
  {
    if k > 0 {
      assert n / 256 < Pow256(k - 1);
      LittleEndianRoundTrip(n / 256, k - 1);
      assert LittleEndian(n, k)[1..] == LittleEndian(n / 256, k - 1);
    }
  }

  /** Fewest bytes that hold `n`. */
  function ByteCount(n: nat): (k: nat)
    requires n < 0x1_0000_0000
    ensures 1 <= k <= 4 && n < Pow256(k)
  {
    assert Pow256(1) == 256 && Pow256(2) == 0x1_0000 && Pow256(3) == 0x100_0000 && Pow256(4) == 0x1_0000_0000;
    if n < 0x100 then 1 else if n < 0x1_0000 then 2 else if n < 0x100_0000 then 3 else 4
  }

  /** `w_long` for a non-negative value below 2^31: zero as one zero byte, 1..122 as one
      byte offset by 5, anything larger as a byte count followed by the bytes. */
  function Long(n: nat): (bs: seq<Byte>)
    requires n < 0x8000_0000
    ensures 1 <= |bs| <= 5
  {
    if n == 0 then [0]
    else if n < 123 then [n + 5]
    else [ByteCount(n)] + LittleEndian(n, ByteCount(n))
  }

  /** `r_long`: the value and the bytes after it. */
  function ReadLong(bs: seq<Byte>): (r: Result<(nat, seq<Byte>), string>)
    ensures r.Ok? ==> |r.value.1| < |bs|
  {
    if bs == [] then Err(TooShort)
    else
      var c := bs[0];
      if c == 0 then Ok((0, bs[1..]))
      else if 4 < c < 128 then Ok((c - 5, bs[1..]))
      else if c <= 4 then
        (if 1 + c > |bs| then Err(TooShort) else Ok((FromLittleEndian(bs[1..1 + c]), bs[1 + c..])))
      else Err(Unsupported)
  }

  /** Reading back a written integer, whatever follows it. */
  lemma ReadLongOf(n: nat, rest: seq<Byte>)
    requires n < 0x8000_0000
    ensures ReadLong(Long(n) + rest) == Ok((n, rest))
  {
    var bs := Long(n) + rest;
    assert bs[0] == Long(n)[0];
    if n >= 123 {
      var k := ByteCount(n);
      assert bs[1..1 + k] == LittleEndian(n, k);
      assert bs[1 + k..] == rest;
      LittleEndianRoundTrip(n, k);
    } else {
      assert bs[1..] == rest;
    }
  }

  // ---------------------------------------------------------------------------
  // Dumping an array of strings
  // ---------------------------------------------------------------------------

  /** A dumpable list: lengths fit `w_long`'s non-negative range. */
  predicate Dumpable(xs: seq<seq<Byte>>) {
    |xs| < 0x8000_0000 && forall k :: 0 <= k < |xs| ==> |xs[k]| < 0x8000_0000
  }

  /** The encoding instance variable: `:E` the first time, a link to symbol 0 afterwards; `T` is UTF-8. */
  function EncodingTail(first: bool): seq<Byte> {
    [6] + (if first then [58, 6, 69] else [59, 0]) + [84]
  }

  /** `I"` length, bytes, encoding. */
  function StringBytes(s: seq<Byte>, first: bool): seq<Byte>
    requires |s| < 0x8000_0000
  {
    [73, 34] + Long(|s|) + s + EncodingTail(first)
  }

  function Elements(xs: seq<seq<Byte>>, first: bool): seq<Byte>
    requires Dumpable(xs)
  {
    if xs == [] then [] else StringBytes(xs[0], first) + Elements(xs[1..], false)
  }

  /** `Marshal.dump` of an array of strings: version 4.8, `[`, the count, the elements. */
  function Dump(xs: seq<seq<Byte>>): seq<Byte>
    requires Dumpable(xs)
  {
    [4, 8, 91] + Long(|xs|) + Elements(xs, true)
  }

  // ---------------------------------------------------------------------------
  // Loading
  // ---------------------------------------------------------------------------

  /** One string and the bytes after it. */
  function ReadString(bs: seq<Byte>, first: bool): (r: Result<(seq<Byte>, seq<Byte>), string>)
    ensures r.Ok? ==> |r.value.1| < |bs|
  {
    if |bs| < 2 then Err(TooShort)
    else if bs[..2] != [73, 34] then Err(Unsupported)
    else ReadBody(ReadLong(bs[2..]), first)
  }

  /** The bytes and the encoding that follow a string's length. */
  function ReadBody(n: Result<(nat, seq<Byte>), string>, first: bool): (r: Result<(seq<Byte>, seq<Byte>), string>)
    ensures r.Ok? ==> n.Ok? && |r.value.1| <= |n.value.1|
  {
    if n.Err? then Err(n.error)
    else
      var len, bs, tail := n.value.0, n.value.1, EncodingTail(first);
      if len + |tail| > |bs| then Err(TooShort)
      else if bs[len..len + |tail|] != tail then Err(Unsupported)
      else Ok((bs[..len], bs[len + |tail|..]))
  }

  /** `count` strings, the first of them carrying `:E` itself, and the bytes after them. */
  function ReadStrings(bs: seq<Byte>, count: nat, first: bool): (r: Result<(seq<seq<Byte>>, seq<Byte>), string>)
    ensures r.Ok? ==> |r.value.0| == count && |r.value.1| <= |bs|
    decreases count
  {
    if count == 0 then Ok(([], bs))
    else
      var s := ReadString(bs, first);
      if s.Err? then Err(s.error)
      else
        var rest := ReadStrings(s.value.1, count - 1, false);
        if rest.Err? then Err(rest.error) else Ok(([s.value.0] + rest.value.0, rest.value.1))
  }

  /** `Marshal.load` of a string, for the subset above: the array and the bytes after it. */
  function LoadRest(bs: seq<Byte>): Result<(seq<seq<Byte>>, seq<Byte>), string> {
    if |bs| < 2 then Err(TooShort)
    else if bs[..2] != [4, 8] then Err(Unsupported)
    else if |bs| < 3 then Err(TooShort)
    else if bs[2] != 91 then Err(Unsupported)
    else
      var n := ReadLong(bs[3..]);
      if n.Err? then Err(n.error) else ReadStrings(n.value.1, n.value.0, true)
  }

  /** `Marshal.load`: bytes after the value are ignored. */
  function Load(bs: seq<Byte>): Result<seq<seq<Byte>>, string> {
    var r := LoadRest(bs);
    if r.Err? then Err(r.error) else Ok(r.value.0)
  }

  lemma ReadBodyOf(s: seq<Byte>, first: bool, rest: seq<Byte>)
    ensures ReadBody(Ok((|s|, s + EncodingTail(first) + rest)), first) == Ok((s, rest))
  {
    var bs, tail := s + EncodingTail(first) + rest, EncodingTail(first);
    assert bs[..|s|] == s;
    assert bs[|s|..|s| + |tail|] == tail;
    assert bs[|s| + |tail|..] == rest;
  }

  /** Reading a written string gives it back, with what follows it. */
  lemma ReadStringOf(s: seq<Byte>, first: bool, rest: seq<Byte>)
    requires |s| < 0x8000_0000
    ensures ReadString(StringBytes(s, first) + rest, first) == Ok((s, rest))
  {
    var bs := StringBytes(s, first) + rest;
    var body := s + EncodingTail(first) + rest;
    assert bs[..2] == [73, 34];
    assert bs[2..] == Long(|s|) + body;
    ReadLongOf(|s|, body);
    ReadBodyOf(s, first, rest);
  }

  lemma {:induction false} ReadStringsOf(xs: seq<seq<Byte>>, first: bool, rest: seq<Byte>)
    requires Dumpable(xs)
    ensures ReadStrings(Elements(xs, first) + rest, |xs|, first) == Ok((xs, rest))
    decreases |xs|
  {
    if xs != [] {
      assert Dumpable(xs[1..]);
      var after := Elements(xs[1..], false) + rest;
      var bs := Elements(xs, first) + rest;
      assert bs == StringBytes(xs[0], first) + after;
      ReadStringOf(xs[0], first, after);
      ReadStringsOf(xs[1..], false, rest);
      assert [xs[0]] + xs[1..] == xs;
      assert ReadStrings(bs, |xs|, first) == Ok(([xs[0]] + xs[1..], rest));
    } else {
      assert Elements(xs, first) + rest == rest;
    }
  }

  /** Loading a dump gives back the list and leaves exactly what was written after it. */
  lemma LoadDumpRest(xs: seq<seq<Byte>>, after: seq<Byte>)
    requires Dumpable(xs)
    ensures LoadRest(Dump(xs) + after) == Ok((xs, after))
  {
    var elements := Elements(xs, true) + after;
    var body := Long(|xs|) + elements;
    var bs := Dump(xs) + after;
    assert bs == [4, 8, 91] + body;
    assert bs[..2] == [4, 8] && bs[2] == 91 && bs[3..] == body;
    ReadLongOf(|xs|, elements);
    ReadStringsOf(xs, true, after);
  }

  /** Loading a dump gives back the list, whatever is written after it. */
  lemma LoadDump(xs: seq<seq<Byte>>, after: seq<Byte>)
    requires Dumpable(xs)
    ensures Load(Dump(xs) + after) == Ok(xs)
  {
    LoadDumpRest(xs, after);
  }

  // Reading only looks at the bytes it consumes: a read that succeeds on `bs` succeeds the
  // same way on `bs + more`, leaving `more` after its rest.

  lemma ReadLongExtend(bs: seq<Byte>, more: seq<Byte>)
    requires ReadLong(bs).Ok?
    ensures ReadLong(bs + more) == Ok((ReadLong(bs).value.0, ReadLong(bs).value.1 + more))
  {
    var c := bs[0];
    assert (bs + more)[0] == c;
    if c <= 4 && c != 0 {
      assert (bs + more)[1..1 + c] == bs[1..1 + c];
      assert (bs + more)[1 + c..] == bs[1 + c..] + more;
    } else {
      assert (bs + more)[1..] == bs[1..] + more;
    }
  }

  lemma ReadStringExtend(bs: seq<Byte>, first: bool, more: seq<Byte>)
    requires ReadString(bs, first).Ok?
    ensures ReadString(bs + more, first) == Ok((ReadString(bs, first).value.0, ReadString(bs, first).value.1 + more))
  {
    assert (bs + more)[..2] == bs[..2];
    assert (bs + more)[2..] == bs[2..] + more;
    ReadLongExtend(bs[2..], more);
    ReadBodyExtend(ReadLong(bs[2..]).value.0, ReadLong(bs[2..]).value.1, first, more);
  }

  lemma ReadBodyExtend(len: nat, body: seq<Byte>, first: bool, more: seq<Byte>)
    requires ReadBody(Ok((len, body)), first).Ok?
    ensures ReadBody(Ok((len, body + more)), first) ==
      Ok((ReadBody(Ok((len, body)), first).value.0, ReadBody(Ok((len, body)), first).value.1 + more))
  {
    var tail := EncodingTail(first);
    assert (body + more)[..len] == body[..len];
    assert (body + more)[len..len + |tail|] == body[len..len + |tail|];
    assert (body + more)[len + |tail|..] == body[len + |tail|..] + more;
  }

  lemma {:induction false} ReadStringsExtend(bs: seq<Byte>, count: nat, first: bool, more: seq<Byte>)
    requires ReadStrings(bs, count, first).Ok?
    ensures ReadStrings(bs + more, count, first) ==
      Ok((ReadStrings(bs, count, first).value.0, ReadStrings(bs, count, first).value.1 + more))
    decreases count
  {
    if count > 0 {
      var s := ReadString(bs, first);
      ReadStringExtend(bs, first, more);
      ReadStringsExtend(s.value.1, count - 1, false, more);
    }
  }

  lemma LoadRestExtend(bs: seq<Byte>, more: seq<Byte>)
    requires LoadRest(bs).Ok?
    ensures LoadRest(bs + more) == Ok((LoadRest(bs).value.0, LoadRest(bs).value.1 + more))
  {
    assert (bs + more)[..2] == bs[..2] && (bs + more)[2] == bs[2];
    assert (bs + more)[3..] == bs[3..] + more;
    ReadLongExtend(bs[3..], more);
    var n := ReadLong(bs[3..]).value;
    ReadStringsExtend(n.1, n.0, true, more);
  }

  /** A dump cut short never loads: whatever loaded from the cut bytes would load from the
      whole dump with the missing bytes left over, but the whole dump loads with nothing
      left over. */
  lemma PrefixNeverLoads(xs: seq<seq<Byte>>, n: nat)
    requires Dumpable(xs) && n < |Dump(xs)|
    ensures Load(Dump(xs)[..n]).Err?
  {
    var d := Dump(xs);
    LoadDumpRest(xs, []);
    assert d + [] == d;
    assert d[..n] + d[n..] == d;
    if LoadRest(d[..n]).Ok? {
      LoadRestExtend(d[..n], d[n..]);
      assert false;
    }
  }

  // ---------------------------------------------------------------------------
  // The pipe
  // ---------------------------------------------------------------------------

  /** `IO#puts` of one string: a line feed is added unless it already ends with one. */
  function PutsBytes(bs: seq<Byte>): seq<Byte> {
    if bs != [] && bs[|bs| - 1] == NewLine then bs else bs + [NewLine]
  }

  /** What the child leaves on the failures pipe. */
  function Pipe(xs: seq<seq<Byte>>): seq<Byte>
    requires Dumpable(xs)
  {
    PutsBytes(Dump(xs))
  }

  /** `IO#gets`: everything up to and including the first line feed. */
  function Gets(bs: seq<Byte>): (line: seq<Byte>)
    ensures NewLine !in bs ==> line == bs
    ensures NewLine in bs ==>
      0 < |line| <= |bs| && line == bs[..|line|] && line[|line| - 1] == NewLine && NewLine !in line[..|line| - 1]
    decreases |bs|
  {
    if bs == [] then []
    else if bs[0] == NewLine then [NewLine]
    else [bs[0]] + Gets(bs[1..])
  }

  lemma {:induction false} ElementsLast(xs: seq<seq<Byte>>, first: bool)
    requires Dumpable(xs) && xs != []
    ensures Elements(xs, first) != [] && Elements(xs, first)[|Elements(xs, first)| - 1] == 84
    decreases |xs|
  {
    if |xs| > 1 {
      assert Dumpable(xs[1..]);
      ElementsLast(xs[1..], false);
    }
  }

  /** A dump ends with the count 0 of an empty array or with the `T` of its last string. */
  lemma DumpEnd(xs: seq<seq<Byte>>)
    requires Dumpable(xs)
    ensures Dump(xs)[|Dump(xs)| - 1] == if xs == [] then 0 else 84
  {
    if xs == [] {
      assert Dump(xs) == [4, 8, 91, 0];
    } else {
      ElementsLast(xs, true);
      var d := Dump(xs);
      assert d[|d| - 1] == Elements(xs, true)[|Elements(xs, true)| - 1];
    }
  }

  /** A dump never ends with a line feed, so `puts` always appends one. */
  lemma PipeIsDumpAndNewLine(xs: seq<seq<Byte>>)
    requires Dumpable(xs)
    ensures Pipe(xs) == Dump(xs) + [NewLine]
  {
    DumpEnd(xs);
  }

  /** `gets` returns a whole line when the line feed is its only one. */
  lemma {:induction false} GetsLine(bs: seq<Byte>)
    requires NewLine !in bs
    ensures Gets(bs + [NewLine]) == bs + [NewLine]
    decreases |bs|
  {
    if bs != [] {
      assert (bs + [NewLine])[1..] == bs[1..] + [NewLine];
      GetsLine(bs[1..]);
    } else {
      assert bs + [NewLine] == [NewLine];
    }
  }

  /** The parent's read as written: `Marshal.load(rd_failures.gets)`. */
  function ReceiveByLine(xs: seq<seq<Byte>>): Result<seq<seq<Byte>>, string>
    requires Dumpable(xs)
  {
    Load(Gets(Pipe(xs)))
  }

  /** `gets` stops at the first line feed, so never after any of them. */
  lemma GetsStopsAt(bs: seq<Byte>, i: nat)
    requires i < |bs| && bs[i] == NewLine
    ensures |Gets(bs)| <= i + 1
  {
    assert bs[i] in bs;
  }

  /**
   * The read as written delivers the list exactly when its dump holds no line-feed byte;
   * otherwise `gets` stops at the first one, inside the dump, and the load of the cut
   * bytes fails.
   */
  lemma ReceiveByLineOutcome(xs: seq<seq<Byte>>)
    requires Dumpable(xs)
    ensures ReceiveByLine(xs).Ok? <==> NewLine !in Dump(xs)
    ensures ReceiveByLine(xs).Ok? ==> ReceiveByLine(xs).value == xs
  {
    var d := Dump(xs);
    PipeIsDumpAndNewLine(xs);
    if NewLine !in d {
      GetsLine(d);
      LoadDump(xs, [NewLine]);
    } else {
      var line := Gets(d + [NewLine]);
      var i :| 0 <= i < |d| && d[i] == NewLine;
      assert (d + [NewLine])[i] == NewLine;
      GetsStopsAt(d + [NewLine], i);
      DumpEnd(xs);
      assert |line| < |d|;
      assert line == d[..|line|];
      PrefixNeverLoads(xs, |line|);
    }
  }

  /**
   * Five failed specs are written with the count byte 5 + 5 = 10, a line
   * feed, right after the array tag: `gets` stops there and the load fails.
   */
  lemma FiveFailuresAreLost(xs: seq<seq<Byte>>)
    requires Dumpable(xs) && |xs| == 5
    ensures Pipe(xs)[..4] == [4, 8, 91, NewLine]
    ensures Gets(Pipe(xs)) == [4, 8, 91, NewLine]
    ensures ReceiveByLine(xs) == Err(TooShort)
  {
    var d := Dump(xs);
    assert Long(5) == [10];
    assert d[..4] == [4, 8, 91, 10];
    PipeIsDumpAndNewLine(xs);
    var p := Pipe(xs);
    assert p[..4] == d[..4];
    GetsStopsAt(p, 3);
    var line := Gets(p);
    assert line == p[..|line|] && line[|line| - 1] == NewLine;
    assert |line| == 4 by {
      assert p[0] != NewLine && p[1] != NewLine && p[2] != NewLine;
    }
    CountOnlyLoad();
  }

  /** The header and a count of five with nothing after them: the first string is missing. */
  lemma CountOnlyLoad()
    ensures Load([4, 8, 91, NewLine]) == Err(TooShort)
  {
    var line: seq<Byte> := [4, 8, 91, NewLine];
    assert line[..2] == [4, 8] && line[3..] == [NewLine];
    assert ReadLong(line[3..]) == Ok((5, []));
    assert ReadString([], true) == Err(TooShort);
  }

  /** The parent's read with `Marshal.load(rd_failures)`: the load takes what it needs from the stream. */
  function Receive(xs: seq<seq<Byte>>): Result<seq<seq<Byte>>, string>
    requires Dumpable(xs)
  {
    Load(Pipe(xs))
  }

  /** Reading from the stream delivers every list the child writes. */
  lemma ReceiveDelivers(xs: seq<seq<Byte>>)
    requires Dumpable(xs)
    ensures Receive(xs) == Ok(xs)
  {
    PipeIsDumpAndNewLine(xs);
    LoadDump(xs, [NewLine]);
  }
}
