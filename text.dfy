/** String operations of Ruby's `String` that the watcher relies on, over `seq<char>`. */
module Text {
  import opened Seqs

  /** `s.gsub(c, rep)` for a one-character literal pattern `c`. */
  function ReplaceChar(s: string, c: char, rep: string): string
    decreases |s|
  {
    if s == [] then [] else (if s[0] == c then rep else [s[0]]) + ReplaceChar(s[1..], c, rep)
  }

  /** Replacing is done character by character, so it distributes over concatenation. */
  lemma {:induction false} ReplaceCharAppend(a: string, b: string, c: char, rep: string)
    ensures ReplaceChar(a + b, c, rep) == ReplaceChar(a, c, rep) + ReplaceChar(b, c, rep)
  {
    if a == [] {
      assert a + b == b;
    } else {
      assert (a + b)[0] == a[0] && (a + b)[1..] == a[1..] + b;
      ReplaceCharAppend(a[1..], b, c, rep);
    }
  }

  /** Every occurrence of `c` grows from one character to `|rep|`; nothing else changes length. */
  lemma {:induction false} ReplaceCharLength(s: string, c: char, rep: string)
    ensures |ReplaceChar(s, c, rep)| == |s| - Count(s, c) + Count(s, c) * |rep|
  {
    if s != [] {
      ReplaceCharLength(s[1..], c, rep);
    }
  }

  /** When `rep` does not contain `c`, no `c` survives. */
  lemma {:induction false} ReplaceCharRemoves(s: string, c: char, rep: string)
    requires c !in rep
    ensures c !in ReplaceChar(s, c, rep)
  {
    if s != [] {
      ReplaceCharRemoves(s[1..], c, rep);
    }
  }

  /** A string without `c` is left as it is. */
  lemma {:induction false} ReplaceCharAbsent(s: string, c: char, rep: string)
    requires c !in s
    ensures ReplaceChar(s, c, rep) == s
  {
    if s != [] {
      assert s == [s[0]] + s[1..];
      ReplaceCharAbsent(s[1..], c, rep);
    }
  }

  /** Undoes `ReplaceChar(s, c, [p, c])`: every `p c` pair becomes `c`, scanning from the left. */
  function Unprefix(t: string, p: char, c: char): string
    decreases |t|
  {
    if t == [] then []
    else if |t| >= 2 && t[0] == p && t[1] == c then [c] + Unprefix(t[2..], p, c)
    else [t[0]] + Unprefix(t[1..], p, c)
  }

  /** After prefixing every `c` with `p`, no output starts with a bare `c`. */
  lemma ReplaceCharHead(s: string, p: char, c: char)
    requires p != c && s != []
    ensures ReplaceChar(s, c, [p, c]) != [] && ReplaceChar(s, c, [p, c])[0] != c
  {
  }

  /** Prefixing every `c` with `p` loses nothing: `Unprefix` recovers the input. */
  lemma {:induction false} UnprefixReplaceChar(s: string, p: char, c: char)
    requires p != c
    ensures Unprefix(ReplaceChar(s, c, [p, c]), p, c) == s
  {
    if s != [] {
      var t, rest := ReplaceChar(s, c, [p, c]), ReplaceChar(s[1..], c, [p, c]);
      UnprefixReplaceChar(s[1..], p, c);
      if s[0] == c {
        assert t[2..] == rest;
      } else {
        assert t[1..] == rest;
        if rest != [] {
          ReplaceCharHead(s[1..], p, c);
        }
      }
      assert s == [s[0]] + s[1..];
    }
  }

  /** After prefixing every `c` with `p`, each `c` in the output directly follows a `p`. */
  lemma {:induction false} ReplaceCharPrefixed(s: string, p: char, c: char, i: nat)
    requires p != c
    requires i < |ReplaceChar(s, c, [p, c])| && ReplaceChar(s, c, [p, c])[i] == c
    ensures i > 0 && ReplaceChar(s, c, [p, c])[i - 1] == p
    decreases |s|
  {
    var head := if s[0] == c then [p, c] else [s[0]];
    assert ReplaceChar(s, c, [p, c]) == head + ReplaceChar(s[1..], c, [p, c]);
    if i >= |head| {
      ReplaceCharPrefixed(s[1..], p, c, i - |head|);
    }
  }

  /** Swapping `c` for `d` and back is the identity when `d` did not occur. */
  lemma {:induction false} ReplaceCharSwapBack(s: string, c: char, d: char)
    requires d !in s
    ensures ReplaceChar(ReplaceChar(s, c, [d]), d, [c]) == s
    decreases |s|
  {
    if s != [] {
      var head := if s[0] == c then [d] else [s[0]];
      assert ReplaceChar(s, c, [d]) == head + ReplaceChar(s[1..], c, [d]);
      ReplaceCharAppend(head, ReplaceChar(s[1..], c, [d]), d, [c]);
      ReplaceCharSwapBack(s[1..], c, d);
      assert s == [s[0]] + s[1..];
    }
  }

  /** `xs.join(sep)`. */
  function Join(xs: seq<string>, sep: string): string
    decreases |xs|
  {
    if xs == [] then [] else if |xs| == 1 then xs[0] else xs[0] + sep + Join(xs[1..], sep)
  }

  /** Joining one more item appends the separator and the item. */
  lemma {:induction false} JoinSnoc(xs: seq<string>, y: string, sep: string)
    requires xs != []
    ensures Join(xs + [y], sep) == Join(xs, sep) + sep + y
  {
    if |xs| > 1 {
      assert (xs + [y])[1..] == xs[1..] + [y];
      JoinSnoc(xs[1..], y, sep);
    }
  }

  /** Index of the first `c` in `s`. */
  function IndexOf(s: string, c: char): (k: nat)
    requires c in s
    ensures k < |s| && s[k] == c && c !in s[..k]
  {
    FirstIndex(s, c)
  }

  /** Splits at every `sep`, keeping empty fields: there is always one field more than separators. */
  function SplitAll(s: string, sep: char): (fields: seq<string>)
    ensures |fields| >= 1
    decreases |s|
  {
    if sep !in s then [s] else [s[..IndexOf(s, sep)]] + SplitAll(s[IndexOf(s, sep) + 1..], sep)
  }

  /** Splitting a joined list gives the list back when no item contains the separator. */
  lemma {:induction false} SplitAllJoin(xs: seq<string>, sep: char)
    requires xs != []
    requires forall k :: 0 <= k < |xs| ==> sep !in xs[k]
    ensures SplitAll(Join(xs, [sep]), sep) == xs
  {
    if |xs| > 1 {
      var s := Join(xs, [sep]);
      assert s == xs[0] + [sep] + Join(xs[1..], [sep]);
      assert s[|xs[0]|] == sep && s[..|xs[0]|] == xs[0];
      assert IndexOf(s, sep) == |xs[0]|;
      assert s[|xs[0]| + 1..] == Join(xs[1..], [sep]);
      SplitAllJoin(xs[1..], sep);
    }
  }

  /** Joining the fields with the separator gives the string back. */
  lemma {:induction false} JoinSplitAll(s: string, sep: char)
    ensures Join(SplitAll(s, sep), [sep]) == s
    decreases |s|
  {
    if sep in s {
      var k := IndexOf(s, sep);
      var rest := SplitAll(s[k + 1..], sep);
      JoinSplitAll(s[k + 1..], sep);
      assert SplitAll(s, sep) == [s[..k]] + rest;
      assert ([s[..k]] + rest)[1..] == rest;
      assert s == s[..k] + [sep] + s[k + 1..];
    }
  }

  /** Every field is free of the separator. */
  lemma {:induction false} SplitAllFields(s: string, sep: char)
    ensures forall k :: 0 <= k < |SplitAll(s, sep)| ==> sep !in SplitAll(s, sep)[k]
    decreases |s|
  {
    if sep in s {
      var k := IndexOf(s, sep);
      SplitAllFields(s[k + 1..], sep);
    }
  }

  /** Drops empty strings from the end, as Ruby's `split` does with trailing empty fields. */
  function DropTrailingEmpty(xs: seq<string>): seq<string>
    decreases |xs|
  {
    if xs != [] && xs[|xs| - 1] == [] then DropTrailingEmpty(xs[..|xs| - 1]) else xs
  }

  /** Ruby's `s.split(sep)` for a one-character separator other than a space. */
  function Split(s: string, sep: char): seq<string> {
    DropTrailingEmpty(SplitAll(s, sep))
  }

  /** Characters `String#strip` removes: null, tab, line feed, vertical tab, form feed, carriage return, space. */
  predicate IsStripSpace(ch: char) {
    ch == '\0' || ch == '\t' || ch == '\n' || ch == '\U{B}' || ch == '\U{C}' || ch == '\r' || ch == ' '
  }

  function StripLeft(s: string): string
    decreases |s|
  {
    if s != [] && IsStripSpace(s[0]) then StripLeft(s[1..]) else s
  }

  function StripRight(s: string): string
    decreases |s|
  {
    if s != [] && IsStripSpace(s[|s| - 1]) then StripRight(s[..|s| - 1]) else s
  }

  /** `String#strip`. */
  function Strip(s: string): string {
    StripRight(StripLeft(s))
  }

  /** `strip` removes exactly a run of strip space from each end: the result is the slice
      `s[i..j]`, everything before `i` and from `j` on is strip space, and the result neither
      starts nor ends with strip space. */
  lemma StripShape(s: string) returns (i: nat, j: nat)
    ensures i <= j <= |s| && Strip(s) == s[i..j]
    ensures forall k :: 0 <= k < i ==> IsStripSpace(s[k])
    ensures forall k :: j <= k < |s| ==> IsStripSpace(s[k])
    ensures Strip(s) != [] ==> !IsStripSpace(Strip(s)[0]) && !IsStripSpace(Strip(s)[|Strip(s)| - 1])
  {
    i := StripLeftShape(s);
    var k := StripRightShape(StripLeft(s));
    j := i + k;
    assert s[i..][..k] == s[i..j];
    forall m | j <= m < |s|
      ensures IsStripSpace(s[m])
    {
      assert s[m] == s[i..][m - i];
    }
  }

  lemma {:induction false} StripLeftShape(s: string) returns (i: nat)
    ensures i <= |s| && StripLeft(s) == s[i..]
    ensures forall k :: 0 <= k < i ==> IsStripSpace(s[k])
    ensures StripLeft(s) != [] ==> !IsStripSpace(StripLeft(s)[0])
    decreases |s|
  {
    if s != [] && IsStripSpace(s[0]) {
      var k := StripLeftShape(s[1..]);
      i := k + 1;
      assert s[1..][k..] == s[i..];
      forall m | 1 <= m < i
        ensures IsStripSpace(s[m])
      {
        assert s[m] == s[1..][m - 1];
      }
    } else {
      i := 0;
    }
  }

  lemma {:induction false} StripRightShape(s: string) returns (j: nat)
    ensures j <= |s| && StripRight(s) == s[..j]
    ensures forall k :: j <= k < |s| ==> IsStripSpace(s[k])
    ensures StripRight(s) != [] ==> !IsStripSpace(StripRight(s)[|StripRight(s)| - 1])
    decreases |s|
  {
    if s != [] && IsStripSpace(s[|s| - 1]) {
      j := StripRightShape(s[..|s| - 1]);
      assert s[..|s| - 1][..j] == s[..j];
      forall m | j <= m < |s| - 1
        ensures IsStripSpace(s[m])
      {
        assert s[m] == s[..|s| - 1][m];
      }
    } else {
      j := |s|;
    }
  }

  /** Stripping keeps only characters of the input. */
  lemma StripWithin(s: string)
    ensures forall ch :: ch in Strip(s) ==> ch in s
  {
    var i, j := StripShape(s);
    assert forall ch :: ch in s[i..j] ==> ch in s;
  }

  /** A string with no strip space at either end is its own strip. */
  lemma StripStripped(s: string)
    requires s != [] ==> !IsStripSpace(s[0]) && !IsStripSpace(s[|s| - 1])
    ensures Strip(s) == s
  {
  }

  /** ASCII letters. */
  predicate IsUpper(ch: char) { 'A' <= ch <= 'Z' }

  /** ASCII downcasing of one character. */
  function Lower(ch: char): (r: char)
    ensures !IsUpper(r)
    ensures !IsUpper(ch) ==> r == ch
  {
    if IsUpper(ch) then (ch as int - 'A' as int + 'a' as int) as char else ch
  }

  /** `String#downcase` restricted to ASCII letters. */
  function Downcase(s: string): string
    decreases |s|
  {
    if s == [] then [] else [Lower(s[0])] + Downcase(s[1..])
  }

  /** Decimal digit of a number below ten. */
  function Digit(d: nat): (ch: char)
    requires d < 10
    ensures '0' <= ch <= '9'
  {
    ('0' as int + d) as char
  }

  predicate AllDigits(s: string) {
    forall k :: 0 <= k < |s| ==> '0' <= s[k] <= '9'
  }

  /** `Integer#to_s` for a non-negative number. */
  function DecimalString(n: nat): (s: string)
    ensures s != [] && AllDigits(s)
    decreases n
  {
    if n < 10 then [Digit(n)] else DecimalString(n / 10) + [Digit(n % 10)]
  }

  /** Value of a string of decimal digits. */
  function DecimalValue(s: string): nat
    requires AllDigits(s)
    decreases |s|
  {
    if s == [] then 0 else DecimalValue(s[..|s| - 1]) * 10 + (s[|s| - 1] as int - '0' as int)
  }

  /** Printing a count in decimal loses nothing. */
  lemma {:induction false} DecimalRoundTrip(n: nat)
    ensures DecimalValue(DecimalString(n)) == n
    decreases n
  {
    if n >= 10 {
      DecimalRoundTrip(n / 10);
      var s := DecimalString(n);
      assert s[..|s| - 1] == DecimalString(n / 10);
    }
  }

  /** An octet. */
  type Byte = x: int | 0 <= x < 256

  /** The UTF-8 encoding of one character: one byte below U+0080, otherwise a lead byte and
      continuation bytes, none of which is below 0x80. */
  function Utf8(c: char): (bs: seq<Byte>)
    ensures 1 <= |bs| <= 4
    ensures |bs| == 1 <==> (c as int) < 0x80
    ensures |bs| == 1 ==> bs[0] == c as int
    ensures |bs| > 1 ==> forall k :: 0 <= k < |bs| ==> bs[k] >= 0x80
  {
    var n := c as int;
    if n < 0x80 then [n]
    else if n < 0x800 then [0xC0 + n / 0x40, 0x80 + n % 0x40]
    else if n < 0x1_0000 then [0xE0 + n / 0x1000, 0x80 + n / 0x40 % 0x40, 0x80 + n % 0x40]
    else [0xF0 + n / 0x4_0000, 0x80 + n / 0x1000 % 0x40, 0x80 + n / 0x40 % 0x40, 0x80 + n % 0x40]
  }

  /** The bytes of a string in UTF-8. */
  function Utf8String(s: string): seq<Byte>
    decreases |s|
  {
    if s == [] then [] else Utf8(s[0]) + Utf8String(s[1..])
  }

  /** A UTF-8 encoded string holds the byte `b` below 0x80 exactly where it holds that
      character: multi-byte sequences never contain ASCII bytes. */
  lemma {:induction false} Utf8StringAscii(s: string, b: Byte)
    requires b < 0x80
    ensures b in Utf8String(s) <==> b as char in s
    decreases |s|
  {
    if s != [] {
      Utf8StringAscii(s[1..], b);
      assert s == [s[0]] + s[1..];
      assert b in Utf8(s[0]) <==> s[0] == b as char;
    }
  }

  /** Encodes each string of a list. */
  function Utf8All(xs: seq<string>): (r: seq<seq<Byte>>)
    ensures |r| == |xs|
    ensures forall k :: 0 <= k < |xs| ==> r[k] == Utf8String(xs[k])
  {
    seq(|xs|, k requires 0 <= k < |xs| => Utf8String(xs[k]))
  }
}
