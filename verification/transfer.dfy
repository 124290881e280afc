/** The transfer engine: for each extension of a record, in the record's
    iteration order, resolve its descriptor to a value and either store that
    value as it is or hand its string form to a persist callback and store
    what the callback resolves to. Each entry is awaited before the next one
    starts, and the first rejection aborts the whole call. */
module TransferEngine {
  import opened Wrappers
  import opened Js

  /** A transform descriptor: called with `(source, extension)`. */
  type ExtensionCallback = (string, string) -> Result<JsValue, Error>

  /** Stores `(extension, value)` and resolves to the value to report for
      `extension`. */
  type PersistCallback = (string, string) -> Result<JsValue, Error>

  /** What an extension maps to: a function, or any other JavaScript value
      (`true` stands for the source itself, anything else is a literal). */
  datatype Extension = Callback(f: ExtensionCallback) | Value(v: JsValue)

  /** The record's value `true`, which passes the source through. */
  const Passthrough: Extension := Value(Bool(true))

  /** The calls `transfer` makes to the callbacks it is given, in the order it
      makes them: a transform call or a persist call. */
  datatype Call =
    | Invoked(source: string, extension: string)
    | Persisted(extension: string, value: string)

  /** An outcome together with the callback calls made on the way to it. */
  datatype Traced<+T> = Traced(outcome: Result<T, Error>, calls: seq<Call>)

  /** The keys of a record, in iteration order. */
  function Keys<X>(entries: seq<(string, X)>): (ks: seq<string>)
    ensures |ks| == |entries|
    ensures forall i :: 0 <= i < |entries| ==> ks[i] == entries[i].0
  {
    seq(|entries|, i requires 0 <= i < |entries| => entries[i].0)
  }

  /** No key occurs twice, as in a JavaScript object. */
  predicate DistinctKeys<X>(entries: seq<(string, X)>) {
    forall i, j :: 0 <= i < j < |entries| ==> entries[i].0 != entries[j].0
  }

  /** Step 1 of an entry: the value its descriptor stands for. */
  function Resolve(source: string, extension: string, config: Extension): (t: Traced<JsValue>)
    ensures config.Callback? ==>
              t.calls == [Invoked(source, extension)] && t.outcome == config.f(source, extension)
    ensures config == Passthrough ==> t == Traced(Success(Str(source)), [])
    ensures config.Value? && config != Passthrough ==> t == Traced(Success(config.v), [])
  {
    match config
    case Callback(f) => Traced(f(source, extension), [Invoked(source, extension)])
    case Value(v) =>
      if v == Bool(true) then Traced(Success(Str(source)), []) else Traced(Success(v), [])
  }

  /** Step 2 of an entry: what is stored under `extension` for `value`. */
  function Store(extension: string, value: JsValue, persist: Option<PersistCallback>): (t: Traced<JsValue>)
    ensures persist.None? ==> t == Traced(Success(value), [])
    ensures persist.Some? ==>
              && t.calls == [Persisted(extension, Stringify(value))]
              && t.outcome == persist.value(extension, Stringify(value))
  {
    match persist
    case None => Traced(Success(value), [])
    case Some(p) =>
      var text := Stringify(value);
      Traced(p(extension, text), [Persisted(extension, text)])
  }

  /** One entry of the loop: resolve, then (if that resolved) store. */
  function Step(source: string, entry: (string, Extension), persist: Option<PersistCallback>): Traced<JsValue>
  {
    var r := Resolve(source, entry.0, entry.1);
    match r.outcome
    case Failure(e) => r
    case Success(value) =>
      var s := Store(entry.0, value, persist);
      Traced(s.outcome, r.calls + s.calls)
  }

  /** `transfer(extensions, source, persist)`. */
  function Transfer(extensions: seq<(string, Extension)>, source: string, persist: Option<PersistCallback>)
    : Traced<seq<(string, JsValue)>>
    decreases |extensions|
  {
    if extensions == [] then Traced(Success([]), [])
    else
      var step := Step(source, extensions[0], persist);
      if step.outcome.Failure? then Traced(Failure(step.outcome.error), step.calls)
      else Then(extensions[0].0, step, Transfer(extensions[1..], source, persist))
  }

  /** The run of the remaining entries after a first entry that stored
      `step.outcome.value` under `key`. */
  function Then(key: string, step: Traced<JsValue>, rest: Traced<seq<(string, JsValue)>>)
    : (t: Traced<seq<(string, JsValue)>>)
    requires step.outcome.Success?
  {
    match rest.outcome
    case Failure(e) => Traced(Failure(e), step.calls + rest.calls)
    case Success(tail) => Traced(Success([(key, step.outcome.value)] + tail), step.calls + rest.calls)
  }

  // ---------------------------------------------------------------------------
  // A reference description of a run, entry by entry.

  /** Entry `i` gets through both of its steps. */
  predicate StepSucceeds(extensions: seq<(string, Extension)>, source: string,
                         persist: Option<PersistCallback>, i: int)
    requires 0 <= i < |extensions|
  {
    Step(source, extensions[i], persist).outcome.Success?
  }

  /** The calls each entry makes when it is evaluated, entry by entry. */
  function StepCalls(extensions: seq<(string, Extension)>, source: string,
                     persist: Option<PersistCallback>): (blocks: seq<seq<Call>>)
    ensures |blocks| == |extensions|
    ensures forall j :: 0 <= j < |extensions| ==> blocks[j] == Step(source, extensions[j], persist).calls
  {
    seq(|extensions|, j requires 0 <= j < |extensions| => Step(source, extensions[j], persist).calls)
  }

  /** The blocks of calls one after the other. */
  function Flatten(blocks: seq<seq<Call>>): seq<Call> {
    if blocks == [] then [] else blocks[0] + Flatten(blocks[1..])
  }

  lemma StepCallsTail(extensions: seq<(string, Extension)>, source: string, persist: Option<PersistCallback>)
    requires extensions != []
    ensures StepCalls(extensions[1..], source, persist) == StepCalls(extensions, source, persist)[1..]
  {
    var rest := extensions[1..];
    assert forall j :: 0 <= j < |rest| ==> rest[j] == extensions[j + 1];
  }

  /** `transfer` resolves exactly when every entry gets through both of its
      steps. */
  lemma {:induction false} TransferSucceedsIff(extensions: seq<(string, Extension)>, source: string,
                                               persist: Option<PersistCallback>)
    ensures Transfer(extensions, source, persist).outcome.Success? <==>
              forall i :: 0 <= i < |extensions| ==> StepSucceeds(extensions, source, persist, i)
    decreases |extensions|
  {
    if extensions != [] {
      var rest := extensions[1..];
      TransferSucceedsIff(rest, source, persist);
      if StepSucceeds(extensions, source, persist, 0) {
        assert Transfer(extensions, source, persist)
            == Then(extensions[0].0, Step(source, extensions[0], persist), Transfer(rest, source, persist));
        if forall j :: 0 <= j < |rest| ==> StepSucceeds(rest, source, persist, j) {
          forall i | 0 <= i < |extensions|
            ensures StepSucceeds(extensions, source, persist, i)
          {
            if i > 0 {
              assert extensions[i] == rest[i - 1];
              assert StepSucceeds(rest, source, persist, i - 1);
            }
          }
        } else {
          var j :| 0 <= j < |rest| && !StepSucceeds(rest, source, persist, j);
          assert extensions[j + 1] == rest[j];
          assert !StepSucceeds(extensions, source, persist, j + 1);
        }
      }
    }
  }

  /** A resolved `transfer` holds one entry per descriptor, with the
      descriptor's key, in the record's order, valued by what that entry's
      step produced; every entry made its calls, one entry after the other. */
  lemma {:induction false} TransferResult(extensions: seq<(string, Extension)>, source: string,
                                          persist: Option<PersistCallback>)
    ensures var t := Transfer(extensions, source, persist);
            t.outcome.Success? ==>
              && |t.outcome.value| == |extensions|
              && Keys(t.outcome.value) == Keys(extensions)
              && (forall i :: 0 <= i < |extensions| ==>
                    && StepSucceeds(extensions, source, persist, i)
                    && t.outcome.value[i].1 == Step(source, extensions[i], persist).outcome.value)
              && t.calls == Flatten(StepCalls(extensions, source, persist))
    decreases |extensions|
  {
    var t := Transfer(extensions, source, persist);
    if extensions != [] && t.outcome.Success? {
      var rest := extensions[1..];
      TransferResult(rest, source, persist);
      var tail := Transfer(rest, source, persist).outcome.value;
      assert t.outcome.value == [(extensions[0].0, Step(source, extensions[0], persist).outcome.value)] + tail;
      forall i | 1 <= i < |extensions|
        ensures && StepSucceeds(extensions, source, persist, i)
                && t.outcome.value[i].1 == Step(source, extensions[i], persist).outcome.value
      {
        assert extensions[i] == rest[i - 1];
        assert t.outcome.value[i] == tail[i - 1];
      }
      assert Keys(t.outcome.value) == Keys(extensions);
      StepCallsTail(extensions, source, persist);
    }
  }

  /** A rejected `transfer` rejected at its first failing entry, with that
      entry's error, after the calls of the entries up to and including it:
      no later entry was evaluated. */
  lemma {:induction false} TransferFails(extensions: seq<(string, Extension)>, source: string,
                                         persist: Option<PersistCallback>)
    ensures var t := Transfer(extensions, source, persist);
            t.outcome.Failure? ==> exists k :: ExitsAt(extensions, source, persist, t, k)
    decreases |extensions|
  {
    var t := Transfer(extensions, source, persist);
    if extensions != [] && t.outcome.Failure? {
      var rest := extensions[1..];
      var step := Step(source, extensions[0], persist);
      if step.outcome.Failure? {
        assert t == Traced(Failure(step.outcome.error), step.calls);
        var blocks := StepCalls(extensions, source, persist);
        assert blocks[..1][1..] == [];
        assert Flatten(blocks[..1]) == step.calls;
        assert ExitsAt(extensions, source, persist, t, 0);
      } else {
        var tr := Transfer(rest, source, persist);
        assert t == Then(extensions[0].0, step, tr);
        assert tr.outcome.Failure? && t.outcome.error == tr.outcome.error;
        TransferFails(rest, source, persist);
        var k :| ExitsAt(rest, source, persist, tr, k);
        ExitsAfterFirst(extensions, source, persist, tr, k);
      }
    }
  }

  /** A run whose first entry got through and whose remaining entries
      rejected at entry `k` of their own rejected at entry `k + 1`. */
  lemma ExitsAfterFirst(extensions: seq<(string, Extension)>, source: string,
                        persist: Option<PersistCallback>, tr: Traced<seq<(string, JsValue)>>, k: int)
    requires extensions != [] && StepSucceeds(extensions, source, persist, 0)
    requires ExitsAt(extensions[1..], source, persist, tr, k)
    ensures ExitsAt(extensions, source, persist,
                    Then(extensions[0].0, Step(source, extensions[0], persist), tr), k + 1)
  {
    var rest := extensions[1..];
    var step := Step(source, extensions[0], persist);
    var blocks := StepCalls(extensions, source, persist);
    StepCallsTail(extensions, source, persist);
    FlattenPrefix(blocks, k + 1);
    forall i | 0 <= i < k + 1
      ensures StepSucceeds(extensions, source, persist, i)
    {
      if i > 0 {
        assert extensions[i] == rest[i - 1];
        assert StepSucceeds(rest, source, persist, i - 1);
      }
    }
    assert extensions[k + 1] == rest[k];
  }

  /** The first `n + 1` blocks flattened are the first block followed by the
      next `n` blocks flattened. */
  lemma FlattenPrefix(blocks: seq<seq<Call>>, n: nat)
    requires n < |blocks|
    ensures Flatten(blocks[..n + 1]) == blocks[0] + Flatten(blocks[1..][..n])
  {
    assert blocks[..n + 1][1..] == blocks[1..][..n];
  }

  /** `t` is a run that rejected at entry `k`: every entry before `k` got
      through, entry `k` rejected with `t`'s error, and the calls are those of
      entries `0..k` only. */
  predicate ExitsAt(extensions: seq<(string, Extension)>, source: string,
                    persist: Option<PersistCallback>, t: Traced<seq<(string, JsValue)>>, k: int)
  {
    && t.outcome.Failure?
    && 0 <= k < |extensions|
    && (forall i :: 0 <= i < k ==> StepSucceeds(extensions, source, persist, i))
    && Step(source, extensions[k], persist).outcome == Failure(t.outcome.error)
    && t.calls == Flatten(StepCalls(extensions, source, persist)[..k + 1])
  }

  // ---------------------------------------------------------------------------
  // Consequences for callers.

  /** Once a run has rejected, appending entries changes nothing: they are
      never evaluated, and neither outcome nor calls depend on them. */
  lemma {:induction false} AbortIgnoresLaterEntries(prefix: seq<(string, Extension)>, later: seq<(string, Extension)>,
                                                    source: string, persist: Option<PersistCallback>)
    requires Transfer(prefix, source, persist).outcome.Failure?
    ensures Transfer(prefix + later, source, persist) == Transfer(prefix, source, persist)
    decreases |prefix|
  {
    var all := prefix + later;
    assert all[0] == prefix[0];
    var step := Step(source, prefix[0], persist);
    if step.outcome.Success? {
      assert all[1..] == prefix[1..] + later;
      assert Transfer(prefix, source, persist)
          == Then(prefix[0].0, step, Transfer(prefix[1..], source, persist));
      AbortIgnoresLaterEntries(prefix[1..], later, source, persist);
    }
  }

  /** Every call an entry makes is about that entry's own key. */
  lemma StepCallsAreAboutItsKey(extensions: seq<(string, Extension)>, source: string,
                                persist: Option<PersistCallback>)
    ensures forall j, c :: 0 <= j < |extensions| && c in StepCalls(extensions, source, persist)[j]
                           ==> c.extension == extensions[j].0
  {
  }

  /** Blocks of calls, block `j` only about `keys[j]`, with distinct keys. */
  predicate CallsAbout(blocks: seq<seq<Call>>, keys: seq<string>) {
    && |blocks| == |keys|
    && (forall j, c :: 0 <= j < |blocks| && c in blocks[j] ==> c.extension == keys[j])
    && (forall j, k :: 0 <= j < k < |keys| ==> keys[j] != keys[k])
  }

  lemma {:induction false} FlattenMember(blocks: seq<seq<Call>>, c: Call)
    ensures c in Flatten(blocks) <==> exists j :: 0 <= j < |blocks| && c in blocks[j]
  {
    if blocks != [] {
      FlattenMember(blocks[1..], c);
      assert forall j :: 1 <= j < |blocks| ==> blocks[1..][j - 1] == blocks[j];
    }
  }

  /** The number of times a call about key `keys[i]` occurs in the flattened
      blocks is the number of times block `i` holds it. */
  lemma {:induction false} CountAboutKey(blocks: seq<seq<Call>>, keys: seq<string>, i: nat, c: Call)
    requires CallsAbout(blocks, keys)
    requires i < |blocks| && c.extension == keys[i]
    ensures multiset(Flatten(blocks))[c] == multiset(blocks[i])[c]
  {
    var rest := blocks[1..];
    assert multiset(Flatten(blocks)) == multiset(blocks[0]) + multiset(Flatten(rest));
    if i == 0 {
      FlattenMember(rest, c);
      OtherBlocksMiss(blocks, keys, c);
    } else {
      assert c !in blocks[0];
      CallsAboutTail(blocks, keys);
      CountAboutKey(rest, keys[1..], i - 1, c);
    }
  }

  /** A call about the first key occurs in no later block. */
  lemma OtherBlocksMiss(blocks: seq<seq<Call>>, keys: seq<string>, c: Call)
    requires CallsAbout(blocks, keys) && blocks != [] && c.extension == keys[0]
    ensures forall j :: 0 <= j < |blocks[1..]| ==> c !in blocks[1..][j]
  {
    forall j | 0 <= j < |blocks[1..]|
      ensures c !in blocks[1..][j]
    {
      assert blocks[1..][j] == blocks[j + 1];
      assert keys[j + 1] != keys[0];
    }
  }

  lemma CallsAboutTail(blocks: seq<seq<Call>>, keys: seq<string>)
    requires CallsAbout(blocks, keys) && blocks != []
    ensures CallsAbout(blocks[1..], keys[1..])
  {
    forall j, c | 0 <= j < |blocks[1..]| && c in blocks[1..][j]
      ensures c.extension == keys[1..][j]
    {
      assert blocks[1..][j] == blocks[j + 1];
    }
  }

  /** In a resolved run over distinct keys, every function descriptor was
      called exactly once, with `(source, extension)`. */
  lemma TransformCalledOnce(extensions: seq<(string, Extension)>, source: string,
                            persist: Option<PersistCallback>, i: nat)
    requires DistinctKeys(extensions) && i < |extensions| && extensions[i].1.Callback?
    requires Transfer(extensions, source, persist).outcome.Success?
    ensures multiset(Transfer(extensions, source, persist).calls)[Invoked(source, extensions[i].0)] == 1
  {
    TransferResult(extensions, source, persist);
    StepCallsAreAboutItsKey(extensions, source, persist);
    CountAboutKey(StepCalls(extensions, source, persist), Keys(extensions), i, Invoked(source, extensions[i].0));
  }

  /** In a resolved run over distinct keys and with a persist callback, every
      entry's value was persisted exactly once, as its string form, and the
      run reports for each key exactly what `persist` resolved to. */
  lemma PersistCalledOnce(extensions: seq<(string, Extension)>, source: string,
                          persist: PersistCallback, i: nat)
    requires DistinctKeys(extensions) && i < |extensions|
    requires Transfer(extensions, source, Some(persist)).outcome.Success?
    ensures var key := extensions[i].0;
            var resolved := Resolve(source, key, extensions[i].1).outcome;
            && resolved.Success?
            && multiset(Transfer(extensions, source, Some(persist)).calls)[Persisted(key, Stringify(resolved.value))] == 1
            && persist(key, Stringify(resolved.value)).Success?
            && |Transfer(extensions, source, Some(persist)).outcome.value| == |extensions|
            && Transfer(extensions, source, Some(persist)).outcome.value[i]
               == (key, persist(key, Stringify(resolved.value)).value)
  {
    TransferResult(extensions, source, Some(persist));
    StepCallsAreAboutItsKey(extensions, source, Some(persist));
    var key := extensions[i].0;
    var resolved := Resolve(source, key, extensions[i].1).outcome;
    CountAboutKey(StepCalls(extensions, source, Some(persist)), Keys(extensions), i,
                  Persisted(key, Stringify(resolved.value)));
  }

  /** Without a persist callback each key holds its resolved value as it is,
      not its string form, and nothing is persisted. */
  lemma ValuesKeptWithoutPersist(extensions: seq<(string, Extension)>, source: string, i: nat)
    requires i < |extensions|
    requires Transfer(extensions, source, None).outcome.Success?
    ensures var resolved := Resolve(source, extensions[i].0, extensions[i].1).outcome;
            && resolved.Success?
            && |Transfer(extensions, source, None).outcome.value| == |extensions|
            && Transfer(extensions, source, None).outcome.value[i] == (extensions[i].0, resolved.value)
    ensures forall c :: c in Transfer(extensions, source, None).calls ==> c.Invoked?
  {
    TransferResult(extensions, source, None);
    forall c | c in Transfer(extensions, source, None).calls
      ensures c.Invoked?
    {
      FlattenMember(StepCalls(extensions, source, None), c);
    }
  }

  /** A record of only `true` and literal descriptors, without a persist
      callback, always resolves: `true` keys hold the source, every other key
      holds its literal unchanged, and no callback is ever called. */
  lemma LiteralsOnly(extensions: seq<(string, Extension)>, source: string)
    requires forall i :: 0 <= i < |extensions| ==> extensions[i].1.Value?
    ensures var t := Transfer(extensions, source, None);
            && t.outcome.Success?
            && Keys(t.outcome.value) == Keys(extensions)
            && t.calls == []
            && forall i :: 0 <= i < |extensions| ==>
                 t.outcome.value[i].1 == (if extensions[i].1 == Passthrough then Str(source) else extensions[i].1.v)
  {
    TransferSucceedsIff(extensions, source, None);
    TransferResult(extensions, source, None);
    var calls := Transfer(extensions, source, None).calls;
    if calls != [] {
      FlattenMember(StepCalls(extensions, source, None), calls[0]);
    }
  }
}
