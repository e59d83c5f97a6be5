/** Validation results and the per-entry loop the composite rules share.
    A rule either yields a value together with the errors it reported
    through `add_settings_error`, or hits a PHP runtime Error (a TypeError
    from a string function given an array, a string offset used as an
    array), which aborts the request: `Fault`. */
module EntryPass {

  import opened Opt
  import opened PhpValue

  /** One `add_settings_error` call: the error code and the field id its
      message names (the setting slug is always 'option-tree'). */
  datatype Error = Error(code: string, field: string)

  datatype Checked<T> = Ok(val: T, errors: seq<Error>) | Fault

  function ErrorsOf<T>(c: Checked<T>): seq<Error> {
    if c.Ok? then c.errors else []
  }

  function Flatten(ess: seq<seq<Error>>): (r: seq<Error>)
    decreases |ess|
  {
    if |ess| == 0 then [] else ess[0] + Flatten(ess[1..])
  }

  lemma {:induction false} FlattenOne(ess: seq<seq<Error>>)
    requires |ess| == 1
    ensures Flatten(ess) == ess[0]
  {
    assert Flatten(ess[1..]) == [];
  }

  /** When every list but the last is empty, flattening gives the last. */
  lemma {:induction false} FlattenLast(ess: seq<seq<Error>>)
    requires |ess| > 0
    requires forall i :: 0 <= i < |ess| - 1 ==> ess[i] == []
    ensures Flatten(ess) == ess[|ess| - 1]
    decreases |ess|
  {
    if |ess| == 1 {
      FlattenOne(ess);
    } else {
      assert forall i :: 0 <= i < |ess| - 1 ==> ess[1..][i] == ess[i + 1];
      FlattenLast(ess[1..]);
      assert ess[0] == [];
    }
  }

  lemma {:induction false} FlattenTwo(ess: seq<seq<Error>>)
    requires |ess| == 2
    ensures Flatten(ess) == ess[0] + ess[1]
  {
    FlattenOne(ess[1..]);
  }

  /** The errors each entry's step reported, in array order. */
  function EntryErrors(es: seq<Entry>, f: Entry -> Checked<Option<Value>>): seq<seq<Error>> {
    seq(|es|, i requires 0 <= i < |es| => ErrorsOf(f(es[i])))
  }

  /** `foreach ($input as $key => $value)` where each iteration either rewrites
      `$input[$key]`, unsets it, or raises: `f` says which for one entry
      (`None` = unset). Iteration runs over the original array, and each step
      touches only its own key, so the loop is a filter-map over the entries. */
  function EachEntry(es: seq<Entry>, f: Entry -> Checked<Option<Value>>): (o: Checked<seq<Entry>>)
    ensures o.Fault? <==> exists i :: 0 <= i < |es| && f(es[i]).Fault?
    ensures o.Ok? ==> o.errors == Flatten(EntryErrors(es, f))
    decreases |es|
  {
    if |es| == 0 then Ok([], [])
    else
      var tail := EachEntry(es[1..], f);
      EntryErrorsCons(es, f);
      assert forall i :: 1 <= i < |es| ==> es[i] == es[1..][i - 1];
      match f(es[0])
      case Fault => Fault
      case Ok(head, herrs) =>
        match tail
        case Fault => Fault
        case Ok(rest, rerrs) =>
          if head.Some? then Ok([Entry(es[0].key, head.value)] + rest, herrs + rerrs)
          else Ok(rest, herrs + rerrs)
  }

  /** The loop's tail: when the whole loop runs through, so does the loop
      over all entries but the first, and the first step does not raise. */
  lemma {:induction false} EachEntryTail(es: seq<Entry>, f: Entry -> Checked<Option<Value>>)
    requires |es| > 0 && EachEntry(es, f).Ok?
    ensures f(es[0]).Ok? && EachEntry(es[1..], f).Ok?
    ensures var o := EachEntry(es, f).val; var rest := EachEntry(es[1..], f).val;
      o == if f(es[0]).val.Some? then [Entry(es[0].key, f(es[0]).val.value)] + rest else rest
  {
    assert forall i :: 1 <= i < |es| ==> es[i] == es[1..][i - 1];
  }

  /** The loop keeps only keys of the input. */
  lemma {:induction false} EachEntryKeys(es: seq<Entry>, f: Entry -> Checked<Option<Value>>)
    requires EachEntry(es, f).Ok?
    ensures forall k :: k in Keys(EachEntry(es, f).val) ==> k in Keys(es)
    decreases |es|
  {
    if |es| > 0 {
      EachEntryTail(es, f);
      EachEntryKeys(es[1..], f);
      ConsFacts(es[0], es[1..]);
      assert [es[0]] + es[1..] == es;
      var head := f(es[0]).val;
      if head.Some? {
        ConsFacts(Entry(es[0].key, head.value), EachEntry(es[1..], f).val);
      }
    }
  }

  /** The loop keeps keys unique. */
  lemma {:induction false} EachEntryUnique(es: seq<Entry>, f: Entry -> Checked<Option<Value>>)
    requires UniqueKeys(es) && EachEntry(es, f).Ok?
    ensures UniqueKeys(EachEntry(es, f).val)
    decreases |es|
  {
    if |es| > 0 {
      EachEntryTail(es, f);
      EachEntryUnique(es[1..], f);
      EachEntryKeys(es[1..], f);
      ConsFacts(es[0], es[1..]);
      assert [es[0]] + es[1..] == es;
      var head := f(es[0]).val;
      if head.Some? {
        ConsFacts(Entry(es[0].key, head.value), EachEntry(es[1..], f).val);
      }
    }
  }

  /** The loop keeps an entry exactly when its step produced a value, and
      the kept entry holds that value. */
  lemma {:induction false} EachEntryKept(es: seq<Entry>, f: Entry -> Checked<Option<Value>>)
    requires UniqueKeys(es) && EachEntry(es, f).Ok?
    ensures var o := EachEntry(es, f).val;
      forall i :: 0 <= i < |es| ==>
        && (es[i].key in Keys(o) <==> f(es[i]).val.Some?)
        && (f(es[i]).val.Some? ==> Get(o, es[i].key) == f(es[i]).val.value)
    decreases |es|
  {
    if |es| > 0 {
      EachEntryTail(es, f);
      EachEntryKept(es[1..], f);
      EachEntryKeys(es[1..], f);
      ConsFacts(es[0], es[1..]);
      assert [es[0]] + es[1..] == es;
      assert forall i :: 1 <= i < |es| ==> es[i] == es[1..][i - 1];
      var head := f(es[0]).val;
      var rest := EachEntry(es[1..], f).val;
      if head.Some? {
        ConsFacts(Entry(es[0].key, head.value), rest);
      }
      forall i | 1 <= i < |es| ensures es[i].key != es[0].key {
        DistinctKeys(es, 0, i);
      }
    }
  }

  /** The three facts together. */
  lemma {:induction false} EachEntryShape(es: seq<Entry>, f: Entry -> Checked<Option<Value>>)
    requires EachEntry(es, f).Ok?
    ensures var o := EachEntry(es, f).val;
      && (forall k :: k in Keys(o) ==> k in Keys(es))
      && (UniqueKeys(es) ==> UniqueKeys(o))
      && (UniqueKeys(es) ==>
            forall i :: 0 <= i < |es| ==>
              && (es[i].key in Keys(o) <==> f(es[i]).val.Some?)
              && (f(es[i]).val.Some? ==> Get(o, es[i].key) == f(es[i]).val.value))
  {
    EachEntryKeys(es, f);
    if UniqueKeys(es) {
      EachEntryUnique(es, f);
      EachEntryKept(es, f);
    }
  }

  /** Lookups after the loop: a kept key holds what its own step produced,
      a dropped or absent key reads as null. */
  lemma {:induction false} EachEntryGet(es: seq<Entry>, f: Entry -> Checked<Option<Value>>, k: Key)
    requires UniqueKeys(es) && EachEntry(es, f).Ok?
    ensures k in Keys(es) ==> f(Entry(k, Get(es, k))).Ok?
    ensures var r := f(Entry(k, Get(es, k)));
      && (k in Keys(EachEntry(es, f).val) <==> k in Keys(es) && r.Ok? && r.val.Some?)
      && Get(EachEntry(es, f).val, k) == if k in Keys(es) && r.Ok? && r.val.Some? then r.val.value else Null
  {
    EachEntryShape(es, f);
    if k in Keys(es) {
      var i := KeyIndex(es, k);
      assert es[i] == Entry(k, Get(es, k));
    }
  }

  /** The loop's errors are the first entry's followed by the rest's. */
  lemma {:induction false} EntryErrorsCons(es: seq<Entry>, f: Entry -> Checked<Option<Value>>)
    requires |es| > 0
    ensures Flatten(EntryErrors(es, f)) == ErrorsOf(f(es[0])) + Flatten(EntryErrors(es[1..], f))
  {
    var ess := EntryErrors(es, f);
    assert ess[1..] == EntryErrors(es[1..], f);
  }

  /** `$input[$k] = ot_validate_setting( $input[$k], ... )`: re-validate one key in place. */
  function Revalidate(acc: Checked<seq<Entry>>, k: Key, sub: Value -> Checked<Value>): (o: Checked<seq<Entry>>)
    ensures acc.Fault? ==> o.Fault?
    ensures acc.Ok? && sub(Get(acc.val, k)).Fault? ==> o.Fault?
    ensures acc.Ok? && sub(Get(acc.val, k)).Ok? ==>
      var r := sub(Get(acc.val, k));
      && o.Ok?
      && o.val == Put(acc.val, k, r.val)
      && o.errors == acc.errors + r.errors
  {
    match acc
    case Fault => Fault
    case Ok(es, errs) =>
      match sub(Get(es, k))
      case Fault => Fault
      case Ok(v, verrs) => Ok(Put(es, k, v), errs + verrs)
  }

  /** One `$input[key] = ot_validate_setting( $input[key], ... )` of a
      sequence of such assignments. */
  datatype Step = Step(key: Key, rule: Value -> Checked<Value>)

  /** Several keys re-validated in place, one after another. */
  function RevalidateAll(acc: Checked<seq<Entry>>, steps: seq<Step>): Checked<seq<Entry>>
    decreases |steps|
  {
    if |steps| == 0 then acc else RevalidateAll(Revalidate(acc, steps[0].key, steps[0].rule), steps[1..])
  }

  predicate DistinctSteps(steps: seq<Step>) {
    forall i, j :: 0 <= i < j < |steps| ==> steps[i].key != steps[j].key
  }

  /** The errors of each step, run on the value the array held to begin with. */
  function StepErrors(es: seq<Entry>, steps: seq<Step>): seq<seq<Error>> {
    seq(|steps|, i requires 0 <= i < |steps| => ErrorsOf(steps[i].rule(Get(es, steps[i].key))))
  }

  lemma {:induction false} RevalidateAllFault(steps: seq<Step>)
    ensures RevalidateAll(Fault, steps) == Fault
    decreases |steps|
  {
    if |steps| > 0 {
      RevalidateAllFault(steps[1..]);
    }
  }

  /** Re-validating distinct keys in turn raises exactly when one rule
      raises on the key's original value. */
  lemma {:induction false} RevalidateAllFaults(es: seq<Entry>, errs: seq<Error>, steps: seq<Step>)
    requires DistinctSteps(steps)
    ensures RevalidateAll(Ok(es, errs), steps).Fault?
        <==> exists i :: 0 <= i < |steps| && steps[i].rule(Get(es, steps[i].key)).Fault?
    decreases |steps|
  {
    if |steps| > 0 {
      var s0 := steps[0];
      var rest := steps[1..];
      assert forall i :: 0 <= i < |rest| ==> rest[i] == steps[i + 1];
      var r0 := s0.rule(Get(es, s0.key));
      if r0.Fault? {
        RevalidateAllFault(rest);
      } else {
        var es1 := Put(es, s0.key, r0.val);
        assert Revalidate(Ok(es, errs), s0.key, s0.rule) == Ok(es1, errs + r0.errors);
        RevalidateAllFaults(es1, errs + r0.errors, rest);
        assert forall i :: 0 <= i < |rest| ==> Get(es1, rest[i].key) == Get(es, rest[i].key);
      }
    }
  }

  /** A key no step names. */
  predicate Unstepped(steps: seq<Step>, k: Key) {
    forall i :: 0 <= i < |steps| ==> steps[i].key != k
  }

  /** Re-validating keys leaves every other key alone. */
  lemma {:induction false} RevalidateAllKeep(es: seq<Entry>, errs: seq<Error>, steps: seq<Step>, k: Key)
    requires Unstepped(steps, k)
    ensures var o := RevalidateAll(Ok(es, errs), steps);
      o.Ok? ==> Get(o.val, k) == Get(es, k)
    decreases |steps|
  {
    if |steps| > 0 {
      var s0 := steps[0];
      var r0 := s0.rule(Get(es, s0.key));
      assert forall i :: 0 <= i < |steps[1..]| ==> steps[1..][i] == steps[i + 1];
      if r0.Fault? {
        RevalidateAllFault(steps[1..]);
      } else {
        RevalidateAllKeep(Put(es, s0.key, r0.val), errs + r0.errors, steps[1..], k);
      }
    }
  }

  /** The first step only rewrites its own key, so with distinct keys the
      later steps read what the array held to begin with. */
  lemma {:induction false} RevalidateFrame(es: seq<Entry>, steps: seq<Step>, v: Value)
    requires |steps| > 0 && DistinctSteps(steps)
    ensures forall i :: 1 <= i < |steps| ==> Get(Put(es, steps[0].key, v), steps[i].key) == Get(es, steps[i].key)
    ensures Unstepped(steps[1..], steps[0].key)
  {
    forall i | 1 <= i < |steps| ensures steps[0].key != steps[i].key {
    }
    forall i | 0 <= i < |steps[1..]| ensures steps[1..][i].key != steps[0].key {
      assert steps[1..][i] == steps[i + 1];
    }
  }

  /** After re-validating distinct keys in turn, each re-validated key
      holds its rule's result on the original value. */
  lemma {:induction false} RevalidateAllSet(es: seq<Entry>, errs: seq<Error>, steps: seq<Step>)
    requires DistinctSteps(steps)
    ensures var o := RevalidateAll(Ok(es, errs), steps);
      o.Ok? ==>
        forall i :: 0 <= i < |steps| ==>
          steps[i].rule(Get(es, steps[i].key)).Ok? && Get(o.val, steps[i].key) == steps[i].rule(Get(es, steps[i].key)).val
    decreases |steps|
  {
    if |steps| > 0 {
      var s0 := steps[0];
      var rest := steps[1..];
      assert forall i :: 0 <= i < |rest| ==> rest[i] == steps[i + 1];
      var r0 := s0.rule(Get(es, s0.key));
      if r0.Fault? {
        RevalidateAllFault(rest);
      } else {
        var es1 := Put(es, s0.key, r0.val);
        assert Revalidate(Ok(es, errs), s0.key, s0.rule) == Ok(es1, errs + r0.errors);
        RevalidateFrame(es, steps, r0.val);
        RevalidateAllSet(es1, errs + r0.errors, rest);
        RevalidateAllKeep(es1, errs + r0.errors, rest, s0.key);
      }
    }
  }

  /** After re-validating distinct keys in turn, each re-validated key
      holds its rule's result on the original value, and every other key
      is unchanged. */
  lemma {:induction false} RevalidateAllGet(es: seq<Entry>, errs: seq<Error>, steps: seq<Step>)
    requires DistinctSteps(steps)
    ensures var o := RevalidateAll(Ok(es, errs), steps);
      o.Ok? ==>
        && (forall i :: 0 <= i < |steps| ==>
              steps[i].rule(Get(es, steps[i].key)).Ok? && Get(o.val, steps[i].key) == steps[i].rule(Get(es, steps[i].key)).val)
        && (forall k :: Unstepped(steps, k) ==> Get(o.val, k) == Get(es, k))
  {
    RevalidateAllSet(es, errs, steps);
    forall k | Unstepped(steps, k) ensures var o := RevalidateAll(Ok(es, errs), steps); o.Ok? ==> Get(o.val, k) == Get(es, k) {
      RevalidateAllKeep(es, errs, steps, k);
    }
  }

  /** The errors of re-validating distinct keys in turn: the rules' own
      errors, in order. */
  lemma {:induction false} RevalidateAllErrors(es: seq<Entry>, errs: seq<Error>, steps: seq<Step>)
    requires DistinctSteps(steps)
    ensures var o := RevalidateAll(Ok(es, errs), steps);
      o.Ok? ==> o.errors == errs + Flatten(StepErrors(es, steps))
    decreases |steps|
  {
    if |steps| > 0 {
      var s0 := steps[0];
      var rest := steps[1..];
      assert forall i :: 0 <= i < |rest| ==> rest[i] == steps[i + 1];
      var r0 := s0.rule(Get(es, s0.key));
      if r0.Fault? {
        RevalidateAllFault(rest);
      } else {
        var es1 := Put(es, s0.key, r0.val);
        assert Revalidate(Ok(es, errs), s0.key, s0.rule) == Ok(es1, errs + r0.errors);
        RevalidateAllErrors(es1, errs + r0.errors, rest);
        RevalidateFrame(es, steps, r0.val);
        var all := StepErrors(es, steps);
        assert StepErrors(es1, rest) == all[1..];
        assert Flatten(all) == all[0] + Flatten(all[1..]);
        ConcatAssoc(errs, r0.errors, Flatten(all[1..]));
      }
    }
  }

  /** Re-validating keys keeps them unique. */
  lemma {:induction false} RevalidateAllUnique(es: seq<Entry>, errs: seq<Error>, steps: seq<Step>)
    requires UniqueKeys(es)
    ensures var o := RevalidateAll(Ok(es, errs), steps);
      o.Ok? ==> UniqueKeys(o.val)
    decreases |steps|
  {
    if |steps| > 0 {
      var r0 := steps[0].rule(Get(es, steps[0].key));
      if r0.Fault? {
        RevalidateAllFault(steps[1..]);
      } else {
        RevalidateAllUnique(Put(es, steps[0].key, r0.val), errs + r0.errors, steps[1..]);
      }
    }
  }

  /** `if ( empty( $input ) ) $input = '';` after a loop has unset keys. */
  function Collapse(es: seq<Entry>): (v: Value)
    ensures v == Str("") <==> |es| == 0
    ensures |es| > 0 ==> v == Arr(es)
  {
    if |es| == 0 then Str("") else Arr(es)
  }
}
