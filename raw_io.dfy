/**
 * The raw-mode standard output wrapper. In raw mode the terminal needs "\r\n" to start a new
 * line, so every string written through the wrapper has each "\n" rewritten to "\r\n".
 * The model gives, for each writing operation, the text that reaches the terminal.
 */
module RawIO {
  import opened Wrappers
  import opened Seqs
  import opened Text

  /** `translate_newlines` applied to one argument: `gsub("\n", "\r\n")`. */
  function TranslateNewlines(s: string): string {
    ReplaceChar(s, '\n', "\r\n")
  }

  /** `translate_newlines(*args)`: the map over all arguments. */
  function TranslateAll(args: seq<string>): (r: seq<string>)
    ensures |r| == |args|
    ensures forall k :: 0 <= k < |args| ==> r[k] == TranslateNewlines(args[k])
    decreases |args|
  {
    if args == [] then [] else [TranslateNewlines(args[0])] + TranslateAll(args[1..])
  }

  /** Text that `write(data)` sends to the terminal. */
  function Write(data: string): string {
    TranslateNewlines(data)
  }

  predicate EndsWithNewline(s: string) {
    s != [] && s[|s| - 1] == '\n'
  }

  /** One argument of `puts`: translated, given a "\n" unless it already ends with one, then
      passed to `write`, which translates a second time. */
  function PutsArg(arg: string): string {
    var t := TranslateNewlines(arg);
    Write(if EndsWithNewline(t) then t else t + "\n")
  }

  /** An argument handed to `puts`: a String, or an Array of strings. An Array has no `gsub`,
      so `translate_newlines` raises on it. */
  datatype Value = Str(s: string) | List(items: seq<string>)

  /** The `NoMethodError` raised for an argument without `gsub`. */
  const NoGsub: string := "undefined method 'gsub' for an instance of Array"

  /** `translate_newlines(*args)` over argument values: the `map` stops at the first argument
      that is not a String and raises. */
  function TranslateValues(args: seq<Value>): (r: Result<seq<string>, string>)
    ensures r.Ok? <==> forall k :: 0 <= k < |args| ==> args[k].Str?
    ensures r.Err? ==> r.error == NoGsub
    ensures r.Ok? ==> |r.value| == |args| && forall k :: 0 <= k < |args| ==> r.value[k] == TranslateNewlines(args[k].s)
    decreases |args|
  {
    if args == [] then Ok([])
    else if args[0].List? then Err(NoGsub)
    else match TranslateValues(args[1..])
      case Err(e) => Err(e)
      case Ok(rest) => Ok([TranslateNewlines(args[0].s)] + rest)
  }

  /** What `puts(*args)` does: every argument is translated before anything is written, so an
      Array argument raises `NoGsub` with nothing sent; otherwise the text is one `write` per
      argument. */
  method Puts(args: seq<Value>) returns (out: Result<string, string>)
    ensures out.Err? <==> exists k :: 0 <= k < |args| && args[k].List?
    ensures out.Err? ==> out.error == NoGsub
    ensures out.Ok? ==> out.value == Flatten(seq(|args|, k requires 0 <= k < |args| && args[k].Str? => PutsArg(args[k].s)))
  {
    var translated := TranslateValues(args);
    if translated.Err? {
      return Err(translated.error);
    }
    var text := [];
    var i := 0;
    while i < |translated.value|
      invariant 0 <= i <= |translated.value|
      invariant text == Flatten(seq(i, k requires 0 <= k < i && args[k].Str? => PutsArg(args[k].s)))
    {
      var arg := translated.value[i];
      if !EndsWithNewline(arg) {
        arg := arg + "\n";
      }
      ghost var parts := seq(i, k requires 0 <= k < i && args[k].Str? => PutsArg(args[k].s));
      assert seq(i + 1, k requires 0 <= k < i + 1 && args[k].Str? => PutsArg(args[k].s)) == parts + [PutsArg(args[i].s)];
      FlattenSnoc(parts, PutsArg(args[i].s));
      text := text + Write(arg);
      i := i + 1;
    }
    out := Ok(text);
  }

  /** Text that `print(*args)` sends: each argument translated once, back to back. */
  function Print(args: seq<string>): string {
    Flatten(TranslateAll(args))
  }

  /** Translation grows the text by exactly one character per newline. */
  lemma {:induction false} TranslateLength(s: string)
    ensures |TranslateNewlines(s)| == |s| + Count(s, '\n')
  {
    ReplaceCharLength(s, '\n', "\r\n");
  }

  /** Every newline that reaches the terminal is preceded by a carriage return. */
  lemma NoBareNewline(s: string, i: nat)
    requires i < |TranslateNewlines(s)| && TranslateNewlines(s)[i] == '\n'
    ensures i > 0 && TranslateNewlines(s)[i - 1] == '\r'
  {
    ReplaceCharPrefixed(s, '\r', '\n', i);
  }

  /** Translation only inserts carriage returns before newlines: removing them gives the input back. */
  lemma TranslateInverse(s: string)
    ensures Unprefix(TranslateNewlines(s), '\r', '\n') == s
  {
    UnprefixReplaceChar(s, '\r', '\n');
  }

  /** Translating twice turns every newline into "\r\r\n" and leaves every other character alone. */
  lemma {:induction false} DoubleTranslation(s: string)
    ensures TranslateNewlines(TranslateNewlines(s)) == ReplaceChar(s, '\n', "\r\r\n")
    decreases |s|
  {
    if s != [] {
      var head := if s[0] == '\n' then "\r\n" else [s[0]];
      assert TranslateNewlines(s) == head + TranslateNewlines(s[1..]);
      ReplaceCharAppend(head, TranslateNewlines(s[1..]), '\n', "\r\n");
      DoubleTranslation(s[1..]);
      if s[0] == '\n' {
        assert ReplaceChar(head, '\n', "\r\n") == "\r\r\n";
      } else {
        assert ReplaceChar(head, '\n', "\r\n") == head;
      }
    }
  }

  /** The last character of a replacement is decided by the last character of the input. */
  lemma ReplaceCharLast(s: string, c: char, rep: string)
    requires s != [] && rep != []
    ensures ReplaceChar(s, c, rep) != []
    ensures ReplaceChar(s, c, rep)[|ReplaceChar(s, c, rep)| - 1] ==
            if s[|s| - 1] == c then rep[|rep| - 1] else s[|s| - 1]
  {
    var init, last := s[..|s| - 1], s[|s| - 1];
    assert s == init + [last];
    ReplaceCharAppend(init, [last], c, rep);
    assert ReplaceChar([last], c, rep) == (if last == c then rep else [last]);
  }

  /** `puts` on one argument: embedded newlines come out as "\r\r\n", and a "\r\n" ends the
      text unless the argument already ended with a newline. */
  lemma PutsArgShape(arg: string)
    ensures PutsArg(arg) == ReplaceChar(arg, '\n', "\r\r\n") + (if EndsWithNewline(arg) then [] else "\r\n")
  {
    var t := TranslateNewlines(arg);
    DoubleTranslation(arg);
    if arg != [] {
      ReplaceCharLast(arg, '\n', "\r\n");
    }
    assert EndsWithNewline(t) <==> EndsWithNewline(arg);
    if !EndsWithNewline(t) {
      ReplaceCharAppend(t, "\n", '\n', "\r\n");
      assert ReplaceChar("\n", '\n', "\r\n") == "\r\n";
    }
  }

  /** Whatever the argument, the text `puts` emits for it ends the line with "\r\n". */
  lemma PutsArgEndsLine(arg: string)
    ensures |PutsArg(arg)| >= 2
    ensures PutsArg(arg)[|PutsArg(arg)| - 2..] == "\r\n"
  {
    PutsArgShape(arg);
    if EndsWithNewline(arg) {
      var r := ReplaceChar(arg, '\n', "\r\r\n");
      ReplaceCharLast(arg, '\n', "\r\r\n");
      ReplaceCharLength(arg, '\n', "\r\r\n");
      var init := arg[..|arg| - 1];
      assert arg == init + "\n";
      ReplaceCharAppend(init, "\n", '\n', "\r\r\n");
      assert ReplaceChar("\n", '\n', "\r\r\n") == "\r\r\n";
      assert r[|r| - 2..] == "\r\n";
    }
  }

  /** `print` translates each argument once: the same as translating their concatenation. */
  lemma {:induction false} PrintTranslatesOnce(args: seq<string>)
    ensures Print(args) == TranslateNewlines(Flatten(args))
    decreases |args|
  {
    if args != [] {
      assert TranslateAll(args)[1..] == TranslateAll(args[1..]);
      PrintTranslatesOnce(args[1..]);
      ReplaceCharAppend(args[0], Flatten(args[1..]), '\n', "\r\n");
    }
  }
}
