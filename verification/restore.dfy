/** The activation hook's restore pass: a stored options array, read back
    from an export, has every value named by a setting trimmed, un-slashed
    and re-validated before it is saved again. */
module Restore {

  import opened Opt
  import opened PhpValue
  import opened PhpString
  import opened EntryPass
  import opened Validation

  // ------------------------------------------------------- ot_stripslashes

  /** `ot_stripslashes`: every scalar, at any depth, is trimmed and
      un-slashed (null reads as ''); arrays keep their keys and order. */
  function StripSlashesDeep(v: Value): (r: Value)
    ensures r.Arr? <==> v.Arr?
    ensures v.Arr? ==> Keys(r.entries) == Keys(v.entries)
    ensures !v.Arr? ==> r.Str? && |r.s| <= |Trim(ScalarText(v))|
    decreases v
  {
    match v
    case Arr(es) =>
      Arr(seq(|es|, i requires 0 <= i < |es| => Entry(es[i].key, StripSlashesDeep(es[i].val))))
    case _ => Str(StripSlashes(Trim(ScalarText(v))))
  }

  /** `v` and `r` have arrays at the same places: each array of `v` is an
      array in `r` with the same keys in the same order, and each scalar of
      `v` is a scalar in `r`. */
  predicate SameShape(v: Value, r: Value)
    decreases v
  {
    match v
    case Arr(es) =>
      && r.Arr? && |r.entries| == |es|
      && forall i :: 0 <= i < |es| ==> r.entries[i].key == es[i].key && SameShape(es[i].val, r.entries[i].val)
    case _ => !r.Arr?
  }

  /** `ot_stripslashes` keeps the shape of a value at every depth. */
  lemma {:induction false} StripSlashesShape(v: Value)
    ensures SameShape(v, StripSlashesDeep(v))
    decreases v
  {
    match v
    case Arr(es) =>
      var r := StripSlashesDeep(v);
      forall i | 0 <= i < |es|
        ensures r.entries[i].key == es[i].key && SameShape(es[i].val, r.entries[i].val)
      {
        StripSlashesShape(es[i].val);
      }
    case _ =>
  }

  /** The value found by following the keys of `p` from `v`: `None` when a
      key is missing or a step lands on a scalar. */
  function At(v: Value, p: seq<Key>): Option<Value>
    decreases |p|
  {
    if |p| == 0 then Some(v)
    else if v.Arr? && p[0] in Keys(v.entries) then At(Get(v.entries, p[0]), p[1..])
    else None
  }

  /** A lookup in an array rewritten entry by entry through `g`, keeping
      the keys, is `g` of the lookup. */
  lemma {:induction false} GetPointwise(a: seq<Entry>, b: seq<Entry>, g: Value -> Value, k: Key)
    requires |b| == |a| && forall i :: 0 <= i < |a| ==> b[i] == Entry(a[i].key, g(a[i].val))
    requires k in Keys(a)
    ensures Get(b, k) == g(Get(a, k))
    decreases |a|
  {
    var a', b' := a[1..], b[1..];
    if a[0].key != k {
      assert Keys(a) == [a[0].key] + Keys(a');
      GetPointwise(a', b', g, k);
    }
  }

  /** A lookup in an un-slashed array is the un-slashed lookup. */
  lemma {:induction false} StripSlashesGet(es: seq<Entry>, k: Key)
    requires k in Keys(es)
    ensures Get(StripSlashesDeep(Arr(es)).entries, k) == StripSlashesDeep(Get(es, k))
  {
    GetPointwise(es, StripSlashesDeep(Arr(es)).entries, x => StripSlashesDeep(x), k);
  }

  /** `ot_stripslashes` by path: a path reaches something in the result
      exactly when it reaches something in the input, and what it reaches
      is the un-slashed input there. */
  lemma {:induction false} StripSlashesAt(v: Value, p: seq<Key>)
    ensures var a := At(v, p); var b := At(StripSlashesDeep(v), p);
      && (b.Some? <==> a.Some?)
      && (a.Some? ==> b.value == StripSlashesDeep(a.value))
    decreases |p|
  {
    if |p| == 0 {
      assert At(v, p) == Some(v);
      assert At(StripSlashesDeep(v), p) == Some(StripSlashesDeep(v));
    } else if v.Arr? && p[0] in Keys(v.entries) {
      var c := Get(v.entries, p[0]);
      StripSlashesStep(v, p);
      StripSlashesAt(c, p[1..]);
      assert At(v, p) == At(c, p[1..]);
      assert At(StripSlashesDeep(v), p) == At(StripSlashesDeep(c), p[1..]);
    } else if v.Arr? {
      assert Keys(StripSlashesDeep(v).entries) == Keys(v.entries);
    }
  }

  /** One step down a path, in the input and in the result. */
  lemma {:induction false} StripSlashesStep(v: Value, p: seq<Key>)
    requires |p| > 0 && v.Arr? && p[0] in Keys(v.entries)
    ensures At(v, p) == At(Get(v.entries, p[0]), p[1..])
    ensures At(StripSlashesDeep(v), p) == At(StripSlashesDeep(Get(v.entries, p[0])), p[1..])
  {
    var r := StripSlashesDeep(v);
    assert Keys(r.entries) == Keys(v.entries);
    StripSlashesGet(v.entries, p[0]);
  }

  /** A scalar a path reaches in the input is, at the same path in the
      result, its trimmed and un-slashed text. */
  lemma {:induction false} StripSlashesLeaf(v: Value, p: seq<Key>)
    requires At(v, p).Some? && !At(v, p).value.Arr?
    ensures At(StripSlashesDeep(v), p) == Some(Str(StripSlashes(Trim(ScalarText(At(v, p).value)))))
  {
    StripSlashesAt(v, p);
  }

  /** `addslashes` applied to every string of a value, at any depth. */
  function AddSlashesDeep(v: Value): (r: Value)
    decreases v
  {
    match v
    case Arr(es) =>
      Arr(seq(|es|, i requires 0 <= i < |es| => Entry(es[i].key, AddSlashesDeep(es[i].val))))
    case Str(s) => Str(AddSlashes(s))
    case Null => Null
  }

  /** A string `trim` leaves alone. */
  predicate Untrimmed(s: string) {
    |s| == 0 || (!IsTrimChar(s[0]) && !IsTrimChar(s[|s| - 1]))
  }

  /** Every leaf is a string that `trim` leaves alone. */
  predicate Clean(v: Value)
    decreases v
  {
    match v
    case Null => false
    case Str(s) => Untrimmed(s)
    case Arr(es) => forall i :: 0 <= i < |es| ==> Clean(es[i].val)
  }

  lemma {:induction false} TrimUntrimmed(s: string)
    requires Untrimmed(s)
    ensures Trim(s) == s
  {
  }

  /** The last character of `addslashes(s)` is the last character of the
      escape of the last character of `s`. */
  lemma {:induction false} AddSlashesLast(s: string)
    requires |s| > 0
    ensures var a := AddSlashes(s); var e := Escape(s[|s| - 1]);
      a[|a| - 1] == e[|e| - 1]
    decreases |s|
  {
    if |s| > 1 {
      AddSlashesLast(s[1..]);
      assert s[1..][|s[1..]| - 1] == s[|s| - 1];
    } else {
      assert AddSlashes(s) == Escape(s[0]) + AddSlashes(s[1..]);
    }
  }

  /** Escaping keeps a string untrimmed: it only ever puts a backslash in
      front, and NUL, the one character it rewrites at the end, is itself a
      trim character. */
  lemma {:induction false} AddSlashesUntrimmed(s: string)
    requires Untrimmed(s)
    ensures Untrimmed(AddSlashes(s))
  {
    if |s| > 0 {
      AddSlashesLast(s);
      assert AddSlashes(s)[0] == Escape(s[0])[0];
    }
  }

  /** `ot_stripslashes` undoes `addslashes` applied throughout a value
      whose strings carry no surrounding whitespace. */
  lemma {:induction false} StripUndoesAddDeep(v: Value)
    requires Clean(v)
    ensures StripSlashesDeep(AddSlashesDeep(v)) == v
    decreases v
  {
    match v
    case Str(s) =>
      AddSlashesUntrimmed(s);
      TrimUntrimmed(AddSlashes(s));
      StripSlashesUndoesAddSlashes(s);
    case Arr(es) =>
      var added := AddSlashesDeep(v).entries;
      var back := StripSlashesDeep(AddSlashesDeep(v)).entries;
      forall i | 0 <= i < |es| ensures back[i] == es[i] {
        StripUndoesAddDeep(es[i].val);
      }
      assert back == es;
  }

  // ------------------------------------------------------------ the restore

  /** One entry of the stored settings schema: an option id and its type. */
  datatype Setting = Setting(id: string, kind: string)

  /** What the loop does to a set value: `ot_stripslashes`, then
      `ot_validate_setting` with the setting's type and id. */
  function Revalidation(env: Env): (Value, Setting) -> Outcome {
    (v, s: Setting) => Validate(env, StripSlashesDeep(v), s.kind, s.id)
  }

  /** What one setting makes of the stored options on its own, for a rule
      `settle`: a value that is not set is left alone, a set one goes
      through the rule. */
  function SettleWith(settle: (Value, Setting) -> Outcome, opts: seq<Entry>, s: Setting): Outcome {
    var v := Get(opts, Name(s.id));
    if v == Null then Ok(v, []) else settle(v, s)
  }

  /** One iteration of the loop over the settings: the value is read from
      the options as they stand, so an earlier setting with the same id has
      already rewritten it. */
  function RestoreStep(settle: (Value, Setting) -> Outcome, acc: Checked<seq<Entry>>, s: Setting): (o: Checked<seq<Entry>>)
    ensures acc.Fault? ==> o.Fault?
    ensures acc.Ok? ==>
      var r := SettleWith(settle, acc.val, s);
      && (o.Fault? <==> r.Fault?)
      && (o.Ok? && IsSet(acc.val, Name(s.id)) ==>
            o == Ok(Put(acc.val, Name(s.id), r.val), acc.errors + r.errors))
      && (!IsSet(acc.val, Name(s.id)) ==> o == acc)
    ensures acc.Ok? && o.Ok? ==>
      && Keys(o.val) == Keys(acc.val)
      && (UniqueKeys(acc.val) ==> UniqueKeys(o.val))
      && forall k :: k != Name(s.id) ==> Get(o.val, k) == Get(acc.val, k)
  {
    match acc
    case Fault => Fault
    case Ok(opts, errs) =>
      var k := Name(s.id);
      if !IsSet(opts, k) then acc
      else
        match settle(Get(opts, k), s)
        case Fault => Fault
        case Ok(v, verrs) => Ok(Put(opts, k, v), errs + verrs)
  }

  /** The loop over the settings. */
  function RestoreAll(settle: (Value, Setting) -> Outcome, acc: Checked<seq<Entry>>, settings: seq<Setting>): Checked<seq<Entry>>
    decreases |settings|
  {
    if |settings| == 0 then acc else RestoreAll(settle, RestoreStep(settle, acc, settings[0]), settings[1..])
  }

  /** The restore of `z_after_activation`, given the unserialised export and
      the stored settings: nothing is saved (`None`) unless the export is an
      array; without a settings array it is saved as it is; a PHP Error in a
      validation aborts before the save. */
  function AfterActivation(env: Env, stored: Value, settings: Option<seq<Setting>>): (r: Option<Checked<seq<Entry>>>)
    ensures r.None? <==> !stored.Arr?
    ensures stored.Arr? && settings.None? ==> r == Some(Ok(stored.entries, []))
  {
    if !stored.Arr? then None
    else if settings.None? then Some(Ok(stored.entries, []))
    else Some(RestoreAll(Revalidation(env), Ok(stored.entries, []), settings.value))
  }

  predicate DistinctIds(settings: seq<Setting>) {
    forall i, j :: 0 <= i < j < |settings| ==> settings[i].id != settings[j].id
  }

  /** A key no setting names. */
  predicate Unnamed(settings: seq<Setting>, k: Key) {
    forall i :: 0 <= i < |settings| ==> Name(settings[i].id) != k
  }

  lemma {:induction false} RestoreAllFault(settle: (Value, Setting) -> Outcome, settings: seq<Setting>)
    ensures RestoreAll(settle, Fault, settings) == Fault
    decreases |settings|
  {
    if |settings| > 0 {
      RestoreAllFault(settle, settings[1..]);
    }
  }

  /** The restore keeps exactly the keys of the export, in their order, and
      keeps them unique: it only ever rewrites a key that is set. */
  lemma {:induction false} RestoreKeys(settle: (Value, Setting) -> Outcome, opts: seq<Entry>, errs: seq<Error>, settings: seq<Setting>)
    ensures var o := RestoreAll(settle, Ok(opts, errs), settings);
      o.Ok? ==> Keys(o.val) == Keys(opts) && (UniqueKeys(opts) ==> UniqueKeys(o.val))
    decreases |settings|
  {
    if |settings| > 0 {
      var next := RestoreStep(settle, Ok(opts, errs), settings[0]);
      if next.Fault? {
        RestoreAllFault(settle, settings[1..]);
      } else {
        RestoreKeys(settle, next.val, next.errors, settings[1..]);
      }
    }
  }

  /** A key that no setting names keeps its value. */
  lemma {:induction false} RestoreUnnamed(settle: (Value, Setting) -> Outcome, opts: seq<Entry>, errs: seq<Error>, settings: seq<Setting>, k: Key)
    requires Unnamed(settings, k)
    ensures var o := RestoreAll(settle, Ok(opts, errs), settings);
      o.Ok? ==> Get(o.val, k) == Get(opts, k)
    decreases |settings|
  {
    if |settings| > 0 {
      var next := RestoreStep(settle, Ok(opts, errs), settings[0]);
      assert forall i :: 0 <= i < |settings[1..]| ==> settings[1..][i] == settings[i + 1];
      if next.Fault? {
        RestoreAllFault(settle, settings[1..]);
      } else {
        RestoreUnnamed(settle, next.val, next.errors, settings[1..], k);
      }
    }
  }

  /** The first setting only rewrites its own key, so with distinct ids the
      later settings see what they would have seen in the export. */
  lemma {:induction false} RestoreStepFrame(settle: (Value, Setting) -> Outcome, opts: seq<Entry>, errs: seq<Error>, settings: seq<Setting>)
    requires |settings| > 0 && DistinctIds(settings)
    requires RestoreStep(settle, Ok(opts, errs), settings[0]).Ok?
    ensures var next := RestoreStep(settle, Ok(opts, errs), settings[0]).val;
      forall i :: 1 <= i < |settings| ==> SettleWith(settle, next, settings[i]) == SettleWith(settle, opts, settings[i])
  {
    var next := RestoreStep(settle, Ok(opts, errs), settings[0]).val;
    forall i | 1 <= i < |settings| ensures Get(next, Name(settings[i].id)) == Get(opts, Name(settings[i].id)) {
      assert settings[0].id != settings[i].id;
    }
  }

  /** With distinct ids, the restore aborts exactly when one setting's
      rule raises on its own stored value. */
  lemma {:induction false} RestoreFaults(settle: (Value, Setting) -> Outcome, opts: seq<Entry>, errs: seq<Error>, settings: seq<Setting>)
    requires DistinctIds(settings)
    ensures RestoreAll(settle, Ok(opts, errs), settings).Fault?
        <==> exists i :: 0 <= i < |settings| && SettleWith(settle, opts, settings[i]).Fault?
    decreases |settings|
  {
    if |settings| > 0 {
      var rest := settings[1..];
      assert forall i :: 0 <= i < |rest| ==> rest[i] == settings[i + 1];
      var next := RestoreStep(settle, Ok(opts, errs), settings[0]);
      if next.Fault? {
        RestoreAllFault(settle, rest);
      } else {
        RestoreFaults(settle, next.val, next.errors, rest);
        RestoreStepFrame(settle, opts, errs, settings);
      }
    }
  }

  /** With distinct ids, every named key ends up holding what its setting
      makes of the stored value. */
  lemma {:induction false} RestoreSettled(settle: (Value, Setting) -> Outcome, opts: seq<Entry>, errs: seq<Error>, settings: seq<Setting>)
    requires DistinctIds(settings)
    ensures var o := RestoreAll(settle, Ok(opts, errs), settings);
      o.Ok? ==>
        forall i :: 0 <= i < |settings| ==>
          SettleWith(settle, opts, settings[i]).Ok?
          && Get(o.val, Name(settings[i].id)) == SettleWith(settle, opts, settings[i]).val
    decreases |settings|
  {
    if |settings| > 0 {
      var rest := settings[1..];
      assert forall i :: 0 <= i < |rest| ==> rest[i] == settings[i + 1];
      var next := RestoreStep(settle, Ok(opts, errs), settings[0]);
      if next.Fault? {
        RestoreAllFault(settle, rest);
      } else {
        RestoreSettled(settle, next.val, next.errors, rest);
        RestoreUnnamed(settle, next.val, next.errors, rest, Name(settings[0].id));
        RestoreStepFrame(settle, opts, errs, settings);
      }
    }
  }

  /** The errors each setting reports, in schema order. */
  function SettledErrors(settle: (Value, Setting) -> Outcome, opts: seq<Entry>, settings: seq<Setting>): seq<seq<Error>> {
    seq(|settings|, i requires 0 <= i < |settings| => ErrorsOf(SettleWith(settle, opts, settings[i])))
  }

  /** With distinct ids, the restore reports each setting's errors in
      schema order. */
  lemma {:induction false} RestoreErrors(settle: (Value, Setting) -> Outcome, opts: seq<Entry>, errs: seq<Error>, settings: seq<Setting>)
    requires DistinctIds(settings)
    ensures var o := RestoreAll(settle, Ok(opts, errs), settings);
      o.Ok? ==> o.errors == errs + Flatten(SettledErrors(settle, opts, settings))
    decreases |settings|
  {
    if |settings| > 0 {
      var rest := settings[1..];
      assert forall i :: 0 <= i < |rest| ==> rest[i] == settings[i + 1];
      var next := RestoreStep(settle, Ok(opts, errs), settings[0]);
      if next.Fault? {
        RestoreAllFault(settle, rest);
      } else {
        RestoreErrors(settle, next.val, next.errors, rest);
        RestoreStepFrame(settle, opts, errs, settings);
        var all := SettledErrors(settle, opts, settings);
        assert SettledErrors(settle, next.val, rest) == all[1..];
        assert next.errors == errs + all[0];
        assert Flatten(all) == all[0] + Flatten(all[1..]);
        ConcatAssoc(errs, all[0], Flatten(all[1..]));
      }
    }
  }

  /** What one setting makes of the export on its own. */
  function Settled(env: Env, stored: seq<Entry>, s: Setting): Outcome {
    SettleWith(Revalidation(env), stored, s)
  }

  /** The activation hook on an array export with a settings schema whose
      ids are distinct: it saves exactly when no setting's validation
      raises; the saved array has the export's keys in order; a key no
      setting names is untouched; and each named key holds its value
      trimmed, un-slashed and re-validated by its own type, or is left
      alone when it was not set. */
  lemma {:induction false} AfterActivationRule(env: Env, stored: seq<Entry>, settings: seq<Setting>)
    requires DistinctIds(settings)
    ensures var r := AfterActivation(env, Arr(stored), Some(settings));
      && r.Some?
      && (r.value.Fault? <==> exists i :: 0 <= i < |settings| && Settled(env, stored, settings[i]).Fault?)
      && (r.value.Ok? ==>
            && Keys(r.value.val) == Keys(stored)
            && (forall k :: Unnamed(settings, k) ==> Get(r.value.val, k) == Get(stored, k))
            && forall i :: 0 <= i < |settings| ==>
                 var v := Get(stored, Name(settings[i].id));
                 Get(r.value.val, Name(settings[i].id))
                   == if v == Null then Null else Validate(env, StripSlashesDeep(v), settings[i].kind, settings[i].id).val)
  {
    var settle := Revalidation(env);
    RestoreFaults(settle, stored, [], settings);
    RestoreKeys(settle, stored, [], settings);
    RestoreSettled(settle, stored, [], settings);
    forall k | Unnamed(settings, k)
      ensures var o := RestoreAll(settle, Ok(stored, []), settings); o.Ok? ==> Get(o.val, k) == Get(stored, k)
    {
      RestoreUnnamed(settle, stored, [], settings, k);
    }
  }
}
