/**
 * The key-command registry: an insertion-ordered table from a key to a described action,
 * the help screen listing it, and the lookup the console loop performs for each polled key.
 */
module Keys {
  import opened Wrappers
  import opened Text

  /** What a registered key does. `RetryFailed` is the default `r` block (enqueue the current
      failed specs); `ResetAndRun(paths)` empties the failed specs and enqueues `paths` (the
      default `a` block with `["spec"]`, and every key made by `run_specs_on_key`);
      `Custom(id)` stands for a block the user passed to `on_key`. */
  datatype Action = RetryFailed | ResetAndRun(paths: seq<string>) | Custom(id: nat)

  /** The `Callback` struct: key, description and block. */
  datatype Callback = Callback(key: string, description: string, action: Action)

  /** `Callback#print`. */
  function Print(cb: Callback): string {
    cb.key + ": " + cb.description
  }

  /** Reads a help entry back: the key is the text before the first ':', the description the
      text after the following space. */
  function ParseEntry(line: string): Option<(string, string)> {
    if ':' !in line then None
    else
      var k := IndexOf(line, ':');
      if k + 1 < |line| && line[k + 1] == ' ' then Some((line[..k], line[k + 2..])) else None
  }

  /** A printed entry names its key and description unambiguously when the key has no ':'. */
  lemma PrintParses(cb: Callback)
    requires ':' !in cb.key
    ensures ParseEntry(Print(cb)) == Some((cb.key, cb.description))
  {
    var line := Print(cb);
    var n := |cb.key|;
    assert line[n] == ':' && line[..n] == cb.key;
    assert IndexOf(line, ':') == n;
    assert line[n + 2..] == cb.description;
  }

  predicate UniqueKeys(cbs: seq<Callback>) {
    forall i, j :: 0 <= i < j < |cbs| ==> cbs[i].key != cbs[j].key
  }

  /** Position of the entry for `key`, if any. */
  function Find(cbs: seq<Callback>, key: string): (r: Option<nat>)
    ensures r.Some? ==> r.value < |cbs| && cbs[r.value].key == key
    ensures r.None? ==> forall i :: 0 <= i < |cbs| ==> cbs[i].key != key
    decreases |cbs|
  {
    if cbs == [] then None
    else if cbs[0].key == key then Some(0)
    else match Find(cbs[1..], key)
      case Some(k) => Some(k + 1)
      case None => None
  }

  /** `@callbacks[key] = cb` on an insertion-ordered hash: an existing key keeps its position
      and gets the new entry; a new key goes to the end. */
  function Upsert(cbs: seq<Callback>, cb: Callback): seq<Callback> {
    match Find(cbs, cb.key)
    case Some(k) => cbs[k := cb]
    case None => cbs + [cb]
  }

  /** `callbacks[char]` for a polled character, nil when nothing was read. */
  function Lookup(cbs: seq<Callback>, input: Option<string>): Option<Callback> {
    match input
    case None => None
    case Some(c) =>
      match Find(cbs, c)
      case Some(k) => Some(cbs[k])
      case None => None
  }

  /** A polled input finds a callback exactly when it is a registered key, and then the one
      registered under it. */
  lemma LookupRegistered(cbs: seq<Callback>, input: Option<string>)
    requires UniqueKeys(cbs)
    ensures Lookup(cbs, input).Some? <==> input.Some? && exists i :: 0 <= i < |cbs| && cbs[i].key == input.value
    ensures forall i :: 0 <= i < |cbs| && input == Some(cbs[i].key) ==> Lookup(cbs, input) == Some(cbs[i])
  {
  }

  /** What `STDIN.read_nonblock(1)` hands the lookup: one byte, or nil when nothing was
      pending. An ASCII byte reads as the one-character string of that character; any other
      byte is a one-byte binary string, which equals no key registered as text. */
  function PolledKey(input: Option<Byte>): (r: Option<string>)
    ensures r.Some? ==> input.Some? && r.value == [input.value as char] && input.value < 0x80
  {
    if input.Some? && input.value < 0x80 then Some([input.value as char]) else None
  }

  /** The key loop reads a single byte, so only one-character ASCII keys can ever fire: a
      polled byte finds a callback exactly when it is the character of such a key. */
  lemma PolledLookup(cbs: seq<Callback>, input: Option<Byte>)
    requires UniqueKeys(cbs)
    ensures var cb := Lookup(cbs, PolledKey(input));
      cb.Some? ==> |cb.value.key| == 1 && (cb.value.key[0] as int) < 0x80 && input == Some(cb.value.key[0] as int)
    ensures forall i ::
      (0 <= i < |cbs| && |cbs[i].key| == 1 && (cbs[i].key[0] as int) < 0x80 && input == Some(cbs[i].key[0] as int)) ==>
        Lookup(cbs, PolledKey(input)) == Some(cbs[i])
  {
    var key := PolledKey(input);
    LookupRegistered(cbs, key);
    if key.Some? {
      assert key.value == [key.value[0]];
    }
    forall i | 0 <= i < |cbs| && |cbs[i].key| == 1 && (cbs[i].key[0] as int) < 0x80 && input == Some(cbs[i].key[0] as int)
      ensures Lookup(cbs, key) == Some(cbs[i])
    {
      assert cbs[i].key == [cbs[i].key[0]];
      assert key == Some(cbs[i].key);
    }
  }

  /** With unique keys, the entry carrying a key is the one `Find` returns. */
  lemma FindUnique(cbs: seq<Callback>, i: nat)
    requires UniqueKeys(cbs) && i < |cbs|
    ensures Find(cbs, cbs[i].key) == Some(i)
  {
    assert Find(cbs, cbs[i].key).Some?;
  }

  /** After registering, the key finds the new entry, every other key finds what it found
      before, and the keys stay unique. */
  lemma UpsertLookup(cbs: seq<Callback>, cb: Callback, other: string)
    requires UniqueKeys(cbs)
    ensures UniqueKeys(Upsert(cbs, cb))
    ensures Lookup(Upsert(cbs, cb), Some(cb.key)) == Some(cb)
    ensures other != cb.key ==> Lookup(Upsert(cbs, cb), Some(other)) == Lookup(cbs, Some(other))
  {
    var r := Upsert(cbs, cb);
    var f := Find(cbs, cb.key);
    var p := if f.Some? then f.value else |cbs|;
    assert p < |r| && r[p] == cb;
    assert forall i :: 0 <= i < |r| && i != p ==> r[i] == cbs[i];
    assert UniqueKeys(r);
    FindUnique(r, p);
    if other != cb.key {
      var h := Find(cbs, other);
      if h.Some? {
        assert r[h.value] == cbs[h.value];
        FindUnique(r, h.value);
      } else {
        assert forall i :: 0 <= i < |r| ==> r[i].key != other;
      }
    }
  }

  /** Re-registering a key replaces its entry without adding one; a new key adds exactly one,
      at the end; entries of other keys keep their positions. */
  lemma UpsertShape(cbs: seq<Callback>, cb: Callback)
    ensures (exists i :: 0 <= i < |cbs| && cbs[i].key == cb.key) ==> |Upsert(cbs, cb)| == |cbs|
    ensures (forall i :: 0 <= i < |cbs| ==> cbs[i].key != cb.key) ==> Upsert(cbs, cb) == cbs + [cb]
    ensures forall i :: 0 <= i < |cbs| && cbs[i].key != cb.key ==> Upsert(cbs, cb)[i] == cbs[i]
  {
  }

  const Dashes: string := seq(90, _ => '-')
  const Header: string := "---- Press a key to run a command or Ctrl-C to quit ----"

  /** The help line for one callback; the `r` line also shows the failed-spec count. */
  function HelpLine(cb: Callback, failedCount: nat): string {
    if cb.key == "r" then "  " + Print(cb) + " (" + DecimalString(failedCount) + " failed)"
    else "  " + Print(cb)
  }

  /** The `r` line ends with the failed count written in decimal, which reads back as that count;
      every line starts with two spaces and the printed entry. */
  lemma HelpLineShape(cb: Callback, failedCount: nat)
    ensures HelpLine(cb, failedCount)[..2 + |Print(cb)|] == "  " + Print(cb)
    ensures cb.key == "r" ==> exists digits: string ::
      AllDigits(digits) && DecimalValue(digits) == failedCount &&
      HelpLine(cb, failedCount) == "  " + Print(cb) + " (" + digits + " failed)"
    ensures cb.key != "r" ==> HelpLine(cb, failedCount) == "  " + Print(cb)
  {
    DecimalRoundTrip(failedCount);
  }

  /** The class-level registry of `KeyWatcher`. */
  class KeyWatcher {
    var callbacks: seq<Callback>

    ghost predicate Valid()
      reads this
    {
      UniqueKeys(callbacks)
    }

    /** The registry as the class body leaves it: `r` then `a`. */
    constructor ()
      ensures Valid()
      ensures callbacks == [Callback("r", "retry failed", RetryFailed), Callback("a", "run all specs", ResetAndRun(["spec"]))]
    {
      callbacks := [];
      new;
      On("r", "retry failed", RetryFailed);
      On("a", "run all specs", ResetAndRun(["spec"]));
    }

    /** `KeyWatcher.on`. */
    method On(key: string, description: string, action: Action)
      requires Valid()
      modifies this
      ensures Valid()
      ensures callbacks == Upsert(old(callbacks), Callback(key, description, action))
    {
      UpsertLookup(callbacks, Callback(key, description, action), key);
      callbacks := Upsert(callbacks, Callback(key, description, action));
    }

    /** `callbacks[char]`. */
    function Get(input: Option<string>): Option<Callback>
      reads this
    {
      Lookup(callbacks, input)
    }

    /** The lines `print_help` writes: a blank line, two rules, the header, then one line per
        callback in registration order. */
    method HelpLines(failedCount: nat) returns (lines: seq<string>)
      ensures |lines| == 4 + |callbacks|
      ensures lines[..4] == ["", Dashes, Dashes, Header]
      ensures forall k :: 0 <= k < |callbacks| ==> lines[4 + k] == HelpLine(callbacks[k], failedCount)
    {
      lines := ["", Dashes, Dashes, Header];
      var i := 0;
      while i < |callbacks|
        invariant 0 <= i <= |callbacks|
        invariant |lines| == 4 + i
        invariant lines[..4] == ["", Dashes, Dashes, Header]
        invariant forall k :: 0 <= k < i ==> lines[4 + k] == HelpLine(callbacks[k], failedCount)
      {
        var cb := callbacks[i];
        if cb.key == "r" {
          lines := lines + ["  " + Print(cb) + " (" + DecimalString(failedCount) + " failed)"];
        } else {
          lines := lines + ["  " + Print(cb)];
        }
        i := i + 1;
      }
    }
  }
}
