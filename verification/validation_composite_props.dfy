/** What the sanitiser promises for the array types: `dimension`,
    `spacing`, `border`, `box-shadow`, `google-fonts`, `background`,
    `typography`, `link-color` and `social-links`. Every statement is about
    an array with unique keys, which is every PHP array. */
module CompositeProps {

  import opened Opt
  import opened PhpValue
  import opened ColorSyntax
  import opened EntryPass
  import opened Validation

  /** A value the zero-length test removes: null or ''. */
  predicate Dropped(v: Value) {
    v == Null || v == Str("")
  }

  /** What a lookup finds once zero-length values are unset. */
  function Kept(v: Value): Value {
    if Dropped(v) then Null else v
  }

  // ------------------------------------------------ dimension and spacing

  /** The keys of the entries whose value must be numeric and is not, in
      array order. */
  function BadNumberKeys(env: Env, es: seq<Entry>): (ks: seq<Key>)
    ensures forall k :: k in ks ==> exists i :: 0 <= i < |es| && es[i].key == k && BadNumber(env, es[i])
    decreases |es|
  {
    if |es| == 0 then []
    else (if BadNumber(env, es[0]) then [es[0].key] else []) + BadNumberKeys(env, es[1..])
  }

  /** One error per key, with the code `prefix` followed by the key. */
  function CodedErrors(ks: seq<Key>, prefix: string, fid: string): (errs: seq<Error>)
    ensures |errs| == |ks|
    ensures forall j :: 0 <= j < |ks| ==> errs[j] == Error(prefix + KeyText(ks[j]), fid)
  {
    seq(|ks|, j requires 0 <= j < |ks| => Error(prefix + KeyText(ks[j]), fid))
  }

  lemma {:induction false} NumberErrorsAreBadKeys(env: Env, es: seq<Entry>, prefix: string, fid: string)
    requires forall i :: 0 <= i < |es| ==> es[i].val != Arr([])
    ensures Flatten(EntryErrors(es, e => NumberEntry(env, e, prefix, fid)))
         == CodedErrors(BadNumberKeys(env, es), prefix, fid)
    decreases |es|
  {
    if |es| > 0 {
      var f := e => NumberEntry(env, e, prefix, fid);
      EntryErrorsCons(es, f);
      NumberErrorsAreBadKeys(env, es[1..], prefix, fid);
      var head := if BadNumber(env, es[0]) then [es[0].key] else [];
      assert ErrorsOf(f(es[0])) == CodedErrors(head, prefix, fid);
      assert CodedErrors(head + BadNumberKeys(env, es[1..]), prefix, fid)
          == CodedErrors(head, prefix, fid) + CodedErrors(BadNumberKeys(env, es[1..]), prefix, fid);
    }
  }

  /** The `dimension` / `spacing` loop over an array with unique keys. */
  lemma {:induction false} NumberFieldsLoop(env: Env, es: seq<Entry>, prefix: string, fid: string)
    requires UniqueKeys(es)
    ensures var o := NumberFields(env, es, prefix, fid);
      && (o.Fault? <==> exists i :: 0 <= i < |es| && es[i].val == Arr([]))
      && (o.Ok? ==>
            && o.errors == CodedErrors(BadNumberKeys(env, es), prefix, fid)
            && (o.val == Str("") <==> forall i :: 0 <= i < |es| ==> Dropped(es[i].val))
            && (o.val != Str("") ==>
                  && o.val.Arr?
                  && (forall k :: k in Keys(o.val.entries) <==> k in Keys(es) && !Dropped(Get(es, k)))
                  && forall k :: Get(o.val.entries, k)
                       == if Dropped(Get(es, k)) then Null
                          else if BadNumber(env, Entry(k, Get(es, k))) then Str("0")
                          else Get(es, k)))
  {
    var f := e => NumberEntry(env, e, prefix, fid);
    var loop := EachEntry(es, f);
    if loop.Ok? {
      var es1 := loop.val;
      NumberErrorsAreBadKeys(env, es, prefix, fid);
      forall k
        ensures k in Keys(es1) <==> k in Keys(es) && !Dropped(Get(es, k))
        ensures Get(es1, k) == if Dropped(Get(es, k)) then Null
                               else if BadNumber(env, Entry(k, Get(es, k))) then Str("0")
                               else Get(es, k)
      {
        EachEntryGet(es, f, k);
      }
      EachEntryEmpty(es, f);
      assert forall i :: 0 <= i < |es| ==> (f(es[i]).val.None? <==> Dropped(es[i].val));
    }
  }

  lemma {:induction false} NumberFieldsDispatch(env: Env, es: seq<Entry>, t: string, fid: string)
    requires t == "dimension" || t == "spacing"
    requires |es| > 0 && !FalsyString(fid)
    ensures Validate(env, Arr(es), t, fid)
         == NumberFields(env, es, if t == "dimension" then "invalid_dimension_" else "invalid_spacing_", fid)
  {
  }

  /** `dimension` and `spacing`: the rule raises exactly when some value is
      an empty array (`strlen` of an array); otherwise every null or '' value
      is removed, every non-empty non-numeric value other than `unit` becomes
      '0' with one error `invalid_<type>_<key>`, in array order, every other
      value is kept, and an array left with nothing becomes ''. */
  lemma {:induction false} NumberFieldsRule(env: Env, es: seq<Entry>, t: string, fid: string)
    requires t == "dimension" || t == "spacing"
    requires UniqueKeys(es) && |es| > 0 && !FalsyString(fid)
    ensures var o := Validate(env, Arr(es), t, fid);
      var prefix := if t == "dimension" then "invalid_dimension_" else "invalid_spacing_";
      && (o.Fault? <==> exists i :: 0 <= i < |es| && es[i].val == Arr([]))
      && (o.Ok? ==>
            && o.errors == CodedErrors(BadNumberKeys(env, es), prefix, fid)
            && (o.val == Str("") <==> forall i :: 0 <= i < |es| ==> Dropped(es[i].val))
            && (o.val != Str("") ==>
                  && o.val.Arr?
                  && (forall k :: k in Keys(o.val.entries) <==> k in Keys(es) && !Dropped(Get(es, k)))
                  && forall k :: Get(o.val.entries, k)
                       == if Dropped(Get(es, k)) then Null
                          else if BadNumber(env, Entry(k, Get(es, k))) then Str("0")
                          else Get(es, k)))
  {
    NumberFieldsDispatch(env, es, t, fid);
    NumberFieldsLoop(env, es, if t == "dimension" then "invalid_dimension_" else "invalid_spacing_", fid);
  }

  // --------------------------------------------------------------- border

  /** The `width` error: a non-empty, non-numeric width. */
  function WidthErrors(env: Env, w: Value, fid: string): seq<Error> {
    if !Empty(w) && !Numeric(env, w) then [Error("invalid_border_width", fid)] else []
  }

  /** The errors of re-validating a non-empty `color`. */
  function ColorErrors(c: Value, color: Value -> Outcome): seq<Error> {
    if Empty(c) then [] else ErrorsOf(color(c))
  }

  /** The errors one border entry reports: the width error on `width`, the
      colour's own errors on `color`. */
  lemma {:induction false} BorderEntryErrors(env: Env, e: Entry, color: Value -> Outcome, fid: string)
    requires BorderEntry(env, e, color, fid).Ok?
    ensures e.key == Width ==> ErrorsOf(BorderEntry(env, e, color, fid)) == WidthErrors(env, e.val, fid)
    ensures e.key == Color ==> ErrorsOf(BorderEntry(env, e, color, fid)) == ColorErrors(e.val, color)
    ensures e.key != Width && e.key != Color ==> ErrorsOf(BorderEntry(env, e, color, fid)) == []
  {
  }

  /** One entry more in front: its errors, if its key is one of the two,
      are that key's errors. */
  lemma {:induction false} TwoKeysCons(e: Entry, tail: seq<Entry>, head: seq<Error>, rest: seq<Error>,
                                       k1: Key, g1: Value -> seq<Error>, k2: Key, g2: Value -> seq<Error>)
    requires e.key !in Keys(tail) && k1 != k2 && g1(Null) == [] && g2(Null) == []
    requires head == if e.key == k1 then g1(e.val) else if e.key == k2 then g2(e.val) else []
    requires multiset(rest) == multiset(g1(Get(tail, k1))) + multiset(g2(Get(tail, k2)))
    ensures multiset(head + rest) == multiset(g1(Get([e] + tail, k1))) + multiset(g2(Get([e] + tail, k2)))
  {
    ConsFacts(e, tail);
    if e.key == k1 {
      assert Get(tail, k1) == Null;
    } else if e.key == k2 {
      assert Get(tail, k2) == Null;
    }
  }

  /** A loop whose steps report errors only on two keys reports, over an
      array with unique keys, just those two keys' errors. */
  lemma {:induction false} ErrorsOnTwoKeys(es: seq<Entry>, f: Entry -> Checked<Option<Value>>,
                                           k1: Key, g1: Value -> seq<Error>, k2: Key, g2: Value -> seq<Error>)
    requires UniqueKeys(es) && k1 != k2 && g1(Null) == [] && g2(Null) == []
    requires forall i :: 0 <= i < |es| ==>
      ErrorsOf(f(es[i])) == if es[i].key == k1 then g1(es[i].val) else if es[i].key == k2 then g2(es[i].val) else []
    ensures multiset(Flatten(EntryErrors(es, f))) == multiset(g1(Get(es, k1))) + multiset(g2(Get(es, k2)))
    decreases |es|
  {
    if |es| > 0 {
      var e := es[0];
      var tail := es[1..];
      EntryErrorsCons(es, f);
      ConsFacts(e, tail);
      assert [e] + tail == es;
      forall i | 0 <= i < |tail|
        ensures ErrorsOf(f(tail[i])) == if tail[i].key == k1 then g1(tail[i].val) else if tail[i].key == k2 then g2(tail[i].val) else []
      {
        assert tail[i] == es[i + 1];
      }
      ErrorsOnTwoKeys(tail, f, k1, g1, k2, g2);
      TwoKeysCons(e, tail, ErrorsOf(f(e)), Flatten(EntryErrors(tail, f)), k1, g1, k2, g2);
    }
  }

  lemma {:induction false} BorderErrorsByKey(env: Env, es: seq<Entry>, color: Value -> Outcome, fid: string)
    requires UniqueKeys(es)
    requires forall i :: 0 <= i < |es| ==> BorderEntry(env, es[i], color, fid).Ok?
    ensures multiset(Flatten(EntryErrors(es, e => BorderEntry(env, e, color, fid))))
         == multiset(WidthErrors(env, Get(es, Width), fid)) + multiset(ColorErrors(Get(es, Color), color))
  {
    forall i | 0 <= i < |es|
      ensures ErrorsOf(BorderEntry(env, es[i], color, fid))
        == if es[i].key == Width then WidthErrors(env, es[i].val, fid)
           else if es[i].key == Color then ColorErrors(es[i].val, color) else []
    {
      BorderEntryErrors(env, es[i], color, fid);
    }
    ErrorsOnTwoKeys(es, e => BorderEntry(env, e, color, fid), Width, v => WidthErrors(env, v, fid), Color, v => ColorErrors(v, color));
  }

  /** A non-empty colour value that neither colour expression accepts. */
  predicate BadColor(v: Value) {
    v.Str? && !FalsyString(v.s) && !ColorOk(v.s)
  }

  /** The errors `colorpicker` reports on a non-empty value it accepts
      without raising: one `invalid_hex` exactly for a bad colour. */
  lemma {:induction false} ColorpickerErrors(env: Env, v: Value, fid: string)
    requires !Empty(v) && !FalsyString(fid)
    ensures Validate(env, v, "colorpicker", fid).Fault? <==> v.Arr?
    ensures Validate(env, v, "colorpicker", fid).Ok? ==>
      Validate(env, v, "colorpicker", fid).errors == if BadColor(v) then [Error("invalid_hex", fid)] else []
  {
    assert Validate(env, v, "colorpicker", fid) == Colorpicker(v, fid);
  }

  /** What the `border` loop leaves at one key. */
  function BorderValue(env: Env, es: seq<Entry>, color: Value -> Outcome, k: Key): Value {
    var v := Get(es, k);
    if Dropped(v) then Null
    else if k == Width && !Empty(v) && !Numeric(env, v) then Str("0")
    else if k == Color && !Empty(v) && color(v).Ok? then color(v).val
    else v
  }

  lemma {:induction false} BorderLoopGet(env: Env, es: seq<Entry>, color: Value -> Outcome, fid: string, k: Key)
    requires UniqueKeys(es)
    requires EachEntry(es, e => BorderEntry(env, e, color, fid)).Ok?
    ensures Get(EachEntry(es, e => BorderEntry(env, e, color, fid)).val, k) == BorderValue(env, es, color, k)
  {
    EachEntryGet(es, e => BorderEntry(env, e, color, fid), k);
  }

  /** A filter-map over unique keys leaves nothing exactly when every entry
      is dropped. */
  lemma {:induction false} EachEntryEmpty(es: seq<Entry>, f: Entry -> Checked<Option<Value>>)
    requires UniqueKeys(es) && EachEntry(es, f).Ok?
    ensures |EachEntry(es, f).val| == 0 <==> forall i :: 0 <= i < |es| ==> f(es[i]).val.None?
  {
    var es1 := EachEntry(es, f).val;
    EachEntryShape(es, f);
    if |es1| > 0 {
      var k := es1[0].key;
      assert k in Keys(es1);
      var i := KeyIndex(es, k);
      assert f(es[i]).val.Some?;
    } else {
      forall i | 0 <= i < |es| ensures f(es[i]).val.None? {
        assert es[i].key !in Keys(es1);
      }
    }
  }

  lemma {:induction false} BorderLoopErrors(env: Env, es: seq<Entry>, color: Value -> Outcome, fid: string)
    requires UniqueKeys(es)
    ensures var o := Border(env, es, color, fid);
      o.Ok? ==> multiset(o.errors) == multiset(WidthErrors(env, Get(es, Width), fid)) + multiset(ColorErrors(Get(es, Color), color))
  {
    var f := e => BorderEntry(env, e, color, fid);
    var loop := EachEntry(es, f);
    if loop.Ok? {
      BorderErrorsByKey(env, es, color, fid);
    }
  }

  lemma {:induction false} BorderLoopCollapse(env: Env, es: seq<Entry>, color: Value -> Outcome, fid: string)
    requires UniqueKeys(es)
    ensures var o := Border(env, es, color, fid);
      o.Ok? ==> (o.val == Str("") <==> forall i :: 0 <= i < |es| ==> Dropped(es[i].val))
  {
    var f := e => BorderEntry(env, e, color, fid);
    var loop := EachEntry(es, f);
    if loop.Ok? {
      EachEntryEmpty(es, f);
      assert forall i :: 0 <= i < |es| ==> (f(es[i]).val.None? <==> Dropped(es[i].val));
    }
  }

  lemma {:induction false} BorderLoopValues(env: Env, es: seq<Entry>, color: Value -> Outcome, fid: string)
    requires UniqueKeys(es)
    ensures var o := Border(env, es, color, fid);
      o.Ok? && o.val != Str("") ==> o.val.Arr? && forall k :: Get(o.val.entries, k) == BorderValue(env, es, color, k)
  {
    var f := e => BorderEntry(env, e, color, fid);
    var loop := EachEntry(es, f);
    if loop.Ok? {
      forall k ensures Get(loop.val, k) == BorderValue(env, es, color, k) {
        BorderLoopGet(env, es, color, fid, k);
      }
    }
  }

  /** The `border` loop keeps exactly the keys whose value was not null
      or ''. */
  lemma {:induction false} BorderLoopKeys(env: Env, es: seq<Entry>, color: Value -> Outcome, fid: string)
    requires UniqueKeys(es)
    ensures var o := Border(env, es, color, fid);
      o.Ok? && o.val != Str("") ==>
        o.val.Arr? && forall k :: k in Keys(o.val.entries) <==> k in Keys(es) && !Dropped(Get(es, k))
  {
    var f := e => BorderEntry(env, e, color, fid);
    var loop := EachEntry(es, f);
    if loop.Ok? {
      forall k ensures k in Keys(loop.val) <==> k in Keys(es) && !Dropped(Get(es, k)) {
        EachEntryGet(es, f, k);
      }
    }
  }

  /** The `border` loop raises exactly when some value is an empty array
      or the colour is a non-empty array, for a colour rule that raises
      exactly on non-empty arrays. */
  lemma {:induction false} BorderLoopFault(env: Env, es: seq<Entry>, color: Value -> Outcome, fid: string)
    requires UniqueKeys(es)
    requires forall v :: !Empty(v) ==> (color(v).Fault? <==> v.Arr?)
    ensures var c := Get(es, Color);
      Border(env, es, color, fid).Fault? <==> (exists i :: 0 <= i < |es| && es[i].val == Arr([])) || (c.Arr? && !Empty(c))
  {
    var f := e => BorderEntry(env, e, color, fid);
    var c := Get(es, Color);
    if c.Arr? && !Empty(c) {
      var i := KeyIndex(es, Color);
      assert f(es[i]).Fault?;
    }
    forall i | 0 <= i < |es| && f(es[i]).Fault? && es[i].val != Arr([])
      ensures c.Arr? && !Empty(c)
    {
      assert es[i].key == Color && !Empty(es[i].val) && color(es[i].val).Fault?;
      GetAt(es, i);
    }
  }

  /** `colorpicker` raises exactly on non-empty arrays. */
  lemma {:induction false} ColorpickerFault(env: Env, fid: string)
    requires !FalsyString(fid)
    ensures forall v :: !Empty(v) ==> (Validate(env, v, "colorpicker", fid).Fault? <==> v.Arr?)
  {
    forall v | !Empty(v) ensures Validate(env, v, "colorpicker", fid).Fault? <==> v.Arr? {
      ColorpickerErrors(env, v, fid);
    }
  }

  lemma {:induction false} BorderDispatch(env: Env, es: seq<Entry>, fid: string)
    requires |es| > 0 && !FalsyString(fid)
    ensures Validate(env, Arr(es), "border", fid) == Border(env, es, v => Validate(env, v, "colorpicker", fid), fid)
  {
  }

  /** `border` raises exactly when some value is an empty array (`strlen`
      of an array) or the colour is a non-empty array (`preg_match` of an
      array). */
  lemma {:induction false} BorderFaults(env: Env, es: seq<Entry>, fid: string)
    requires UniqueKeys(es) && |es| > 0 && !FalsyString(fid)
    ensures var c := Get(es, Color);
      Validate(env, Arr(es), "border", fid).Fault? <==>
        (exists i :: 0 <= i < |es| && es[i].val == Arr([])) || (c.Arr? && !Empty(c))
  {
    BorderDispatch(env, es, fid);
    ColorpickerFault(env, fid);
    BorderLoopFault(env, es, color := v => Validate(env, v, "colorpicker", fid), fid := fid);
  }

  /** `border` reports `invalid_border_width` exactly for a non-empty,
      non-numeric width and `invalid_hex` exactly for a non-empty colour
      neither expression accepts, and nothing else (each at most once; the
      order between the two is not stated here). */
  lemma {:induction false} BorderErrors(env: Env, es: seq<Entry>, fid: string)
    requires UniqueKeys(es) && |es| > 0 && !FalsyString(fid)
    ensures var o := Validate(env, Arr(es), "border", fid);
      var w := Get(es, Width);
      o.Ok? ==>
        multiset(o.errors)
          == multiset((if !Empty(w) && !Numeric(env, w) then [Error("invalid_border_width", fid)] else [])
                      + (if BadColor(Get(es, Color)) then [Error("invalid_hex", fid)] else []))
  {
    var color := v => Validate(env, v, "colorpicker", fid);
    BorderDispatch(env, es, fid);
    var c := Get(es, Color);
    if !Empty(c) {
      ColorpickerErrors(env, c, fid);
    }
    BorderLoopErrors(env, es, color, fid);
  }

  /** What the `border` loop leaves, for any colour rule. */
  lemma {:induction false} BorderLoopResult(env: Env, es: seq<Entry>, color: Value -> Outcome, fid: string)
    requires UniqueKeys(es)
    ensures var o := Border(env, es, color, fid);
      var w := Get(es, Width);
      var c := Get(es, Color);
      o.Ok? ==>
        && (o.val == Str("") <==> forall i :: 0 <= i < |es| ==> Dropped(es[i].val))
        && (o.val != Str("") ==>
              && o.val.Arr?
              && (forall k :: k in Keys(o.val.entries) <==> k in Keys(es) && !Dropped(Get(es, k)))
              && (forall k :: Dropped(Get(es, k)) ==> Get(o.val.entries, k) == Null)
              && (forall k :: !Dropped(Get(es, k)) && k != Width && k != Color ==>
                    Get(o.val.entries, k) == Get(es, k))
              && (!Dropped(w) ==>
                    Get(o.val.entries, Width) == if !Empty(w) && !Numeric(env, w) then Str("0") else w)
              && Get(o.val.entries, Color) == BorderValue(env, es, color, Color))
  {
    BorderLoopCollapse(env, es, color, fid);
    BorderLoopValues(env, es, color, fid);
    BorderLoopKeys(env, es, color, fid);
  }

  /** What `border` leaves: the keys whose value was null or '' are
      removed, a non-empty non-numeric `width` becomes '0', a non-empty
      `color` is re-validated as a colour (an invalid one stays present as
      ''), every other value is kept, and an array left with nothing
      becomes ''. */
  lemma {:induction false} BorderResult(env: Env, es: seq<Entry>, fid: string)
    requires UniqueKeys(es) && |es| > 0 && !FalsyString(fid)
    ensures var o := Validate(env, Arr(es), "border", fid);
      var w := Get(es, Width);
      var c := Get(es, Color);
      o.Ok? ==>
        && (o.val == Str("") <==> forall i :: 0 <= i < |es| ==> Dropped(es[i].val))
        && (o.val != Str("") ==>
              && o.val.Arr?
              && (forall k :: k in Keys(o.val.entries) <==> k in Keys(es) && !Dropped(Get(es, k)))
              && (forall k :: Dropped(Get(es, k)) ==> Get(o.val.entries, k) == Null)
              && (forall k :: !Dropped(Get(es, k)) && k != Width && k != Color ==>
                    Get(o.val.entries, k) == Get(es, k))
              && (!Dropped(w) ==>
                    Get(o.val.entries, Width) == if !Empty(w) && !Numeric(env, w) then Str("0") else w)
              && (!Dropped(c) ==>
                    && Validate(env, c, "colorpicker", fid).Ok?
                    && Get(o.val.entries, Color) == Validate(env, c, "colorpicker", fid).val))
  {
    var color := v => Validate(env, v, "colorpicker", fid);
    BorderDispatch(env, es, fid);
    BorderLoopResult(env, es, color, fid);
    var c := Get(es, Color);
    if Border(env, es, color, fid).Ok? && !Dropped(c) {
      BorderFaults(env, es, fid);
      if !Empty(c) {
        ColorpickerErrors(env, c, fid);
      } else {
        assert color(c) == Ok(c, []);
      }
    }
  }

  // ----------------------------------------------------------- box-shadow

  predicate IsShadowText(k: Key) {
    k == OffsetX || k == OffsetY || k == BlurRadius || k == SpreadRadius
  }

  /** What `box-shadow` assigns to one key before its unset loop, for any
      text and colour rules: every other key keeps its value. */
  function Shadowed(es: seq<Entry>, text: Value -> Outcome, color: Value -> Outcome, k: Key): Outcome {
    if k == Inset then Ok(if IsSet(es, Inset) then Str("inset") else Str(""), [])
    else if IsShadowText(k) then text(Get(es, k))
    else if k == Color then color(Get(es, k))
    else Ok(Get(es, k), [])
  }

  /** A step that raises, or leaves an empty array that `strlen` raises on. */
  predicate Broken(c: Outcome) {
    c.Fault? || c.val == Arr([])
  }

  /** A step that leaves a value the unset loop removes. */
  predicate LeavesNothing(c: Outcome) {
    c.Ok? && Dropped(c.val)
  }

  function ValueOf(c: Outcome): Value {
    if c.Ok? then c.val else Null
  }

  lemma {:induction false} ShadowStepsDistinct(text: Value -> Outcome, color: Value -> Outcome)
    ensures DistinctSteps(ShadowSteps(text, color))
  {
  }

  /** Which of the five re-validations of `box-shadow` touches a key, or -1. */
  function ShadowIndex(k: Key): (i: int)
    ensures -1 <= i < 5
  {
    if k == OffsetX then 0
    else if k == OffsetY then 1
    else if k == BlurRadius then 2
    else if k == SpreadRadius then 3
    else if k == Color then 4
    else -1
  }

  /** The re-validation at position `i` is the one `ShadowIndex` names for
      its key, and `inset` is not re-validated. */
  lemma {:induction false} ShadowIndexFacts(text: Value -> Outcome, color: Value -> Outcome)
    ensures |ShadowSteps(text, color)| == 5
    ensures forall i :: 0 <= i < 5 ==> ShadowIndex(ShadowSteps(text, color)[i].key) == i
    ensures forall k :: 0 <= ShadowIndex(k) ==> ShadowSteps(text, color)[ShadowIndex(k)].key == k
    ensures ShadowIndex(Inset) == -1
  {
  }

  /** `Shadowed` away from `inset`: the re-validation `ShadowIndex` names,
      or the value unchanged. */
  lemma {:induction false} ShadowedByIndex(es: seq<Entry>, text: Value -> Outcome, color: Value -> Outcome, k: Key)
    requires k != Inset
    ensures Shadowed(es, text, color, k)
         == if 0 <= ShadowIndex(k) then ShadowSteps(text, color)[ShadowIndex(k)].rule(Get(es, k)) else Ok(Get(es, k), [])
  {
  }

  /** The assignments of `box-shadow` raise exactly when one of the five
      re-validations raises. */
  lemma {:induction false} BoxShadowPrepareFault(es: seq<Entry>, text: Value -> Outcome, color: Value -> Outcome)
    ensures BoxShadowPrepare(es, text, color).Fault? <==> exists k :: Shadowed(es, text, color, k).Fault?
  {
    var steps := ShadowSteps(text, color);
    var withInset := Put(es, Inset, if IsSet(es, Inset) then Str("inset") else Str(""));
    ShadowStepsDistinct(text, color);
    ShadowIndexFacts(text, color);
    RevalidateAllFaults(withInset, [], steps);
    if BoxShadowPrepare(es, text, color).Fault? {
      var i :| 0 <= i < |steps| && steps[i].rule(Get(withInset, steps[i].key)).Fault?;
      var k := steps[i].key;
      assert ShadowIndex(k) == i;
      ShadowedByIndex(es, text, color, k);
      assert Shadowed(es, text, color, k).Fault?;
    }
    if exists k :: Shadowed(es, text, color, k).Fault? {
      var k :| Shadowed(es, text, color, k).Fault?;
      assert k != Inset;
      ShadowedByIndex(es, text, color, k);
      var i := ShadowIndex(k);
      assert steps[i].rule(Get(withInset, steps[i].key)).Fault?;
    }
  }

  /** Any array that holds the five re-validations of `box-shadow` and
      otherwise the `inset`-normalised input holds what `Shadowed` says. */
  lemma {:induction false} PreparedKey(es: seq<Entry>, text: Value -> Outcome, color: Value -> Outcome, q: seq<Entry>, k: Key)
    requires var steps := ShadowSteps(text, color);
      var withInset := Put(es, Inset, if IsSet(es, Inset) then Str("inset") else Str(""));
      && (forall i :: 0 <= i < |steps| ==>
            steps[i].rule(Get(withInset, steps[i].key)).Ok?
            && Get(q, steps[i].key) == steps[i].rule(Get(withInset, steps[i].key)).val)
      && (forall k :: Unstepped(steps, k) ==> Get(q, k) == Get(withInset, k))
    ensures Get(q, k) == ValueOf(Shadowed(es, text, color, k))
  {
    var steps := ShadowSteps(text, color);
    ShadowIndexFacts(text, color);
    if k == Inset {
      assert Unstepped(steps, k);
    } else {
      ShadowedByIndex(es, text, color, k);
      var i := ShadowIndex(k);
      if 0 <= i {
        assert steps[i].key == k;
      } else {
        assert Unstepped(steps, k);
      }
    }
  }

  /** After the assignments every key holds what `Shadowed` says and the
      keys stay unique. */
  lemma {:induction false} BoxShadowPrepareGet(es: seq<Entry>, text: Value -> Outcome, color: Value -> Outcome)
    requires UniqueKeys(es)
    ensures var p := BoxShadowPrepare(es, text, color);
      p.Ok? ==> UniqueKeys(p.val) && forall k :: Get(p.val, k) == ValueOf(Shadowed(es, text, color, k))
  {
    var steps := ShadowSteps(text, color);
    var withInset := Put(es, Inset, if IsSet(es, Inset) then Str("inset") else Str(""));
    ShadowStepsDistinct(text, color);
    RevalidateAllGet(withInset, [], steps);
    RevalidateAllUnique(withInset, [], steps);
    var p := BoxShadowPrepare(es, text, color);
    if p.Ok? {
      forall k ensures Get(p.val, k) == ValueOf(Shadowed(es, text, color, k)) {
        PreparedKey(es, text, color, p.val, k);
      }
    }
  }

  /** With a text rule that reports nothing, the five re-validations
      report only the colour's errors. */
  lemma {:induction false} ShadowStepErrors(w: seq<Entry>, text: Value -> Outcome, color: Value -> Outcome)
    requires forall v :: ErrorsOf(text(v)) == []
    ensures Flatten(StepErrors(w, ShadowSteps(text, color))) == ErrorsOf(color(Get(w, Color)))
  {
    var steps := ShadowSteps(text, color);
    var ess := StepErrors(w, steps);
    assert |ess| == 5;
    forall i | 0 <= i < 4 ensures ess[i] == [] {
      assert steps[i].rule == text;
      assert ess[i] == ErrorsOf(text(Get(w, steps[i].key)));
    }
    assert ess[4] == ErrorsOf(color(Get(w, Color))) by {
      assert steps[4] == Step(Color, color);
    }
    FlattenLast(ess);
  }

  /** The errors of the assignments, for a text rule that reports none:
      those of the colour. */
  lemma {:induction false} BoxShadowPrepareErrors(es: seq<Entry>, text: Value -> Outcome, color: Value -> Outcome)
    requires forall v :: ErrorsOf(text(v)) == []
    ensures var p := BoxShadowPrepare(es, text, color);
      p.Ok? ==> p.errors == ErrorsOf(color(Get(es, Color)))
  {
    var steps := ShadowSteps(text, color);
    var withInset := Put(es, Inset, if IsSet(es, Inset) then Str("inset") else Str(""));
    ShadowStepsDistinct(text, color);
    RevalidateAllErrors(withInset, [], steps);
    ShadowStepErrors(withInset, text, color);
    assert Get(withInset, Color) == Get(es, Color);
  }

  /** The unset loop of `box-shadow` raises exactly on an empty array. */
  lemma {:induction false} DropZeroLengthFault(es: seq<Entry>)
    requires UniqueKeys(es)
    ensures EachEntry(es, DropZeroLength).Fault? <==> exists k :: Get(es, k) == Arr([])
  {
    if exists k :: Get(es, k) == Arr([]) {
      var k :| Get(es, k) == Arr([]);
      var i := KeyIndex(es, k);
      assert DropZeroLength(es[i]).Fault?;
    }
    if EachEntry(es, DropZeroLength).Fault? {
      var i :| 0 <= i < |es| && DropZeroLength(es[i]).Fault?;
      GetAt(es, i);
    }
  }

  /** Otherwise it removes exactly the null and '' values. */
  lemma {:induction false} DropZeroLengthGet(es: seq<Entry>)
    requires UniqueKeys(es) && EachEntry(es, DropZeroLength).Ok?
    ensures forall k :: Get(EachEntry(es, DropZeroLength).val, k) == Kept(Get(es, k))
  {
    forall k ensures Get(EachEntry(es, DropZeroLength).val, k) == Kept(Get(es, k)) {
      EachEntryGet(es, DropZeroLength, k);
    }
  }

  /** It leaves nothing exactly when every value is null or ''. */
  lemma {:induction false} DropZeroLengthEmpty(es: seq<Entry>)
    requires UniqueKeys(es) && EachEntry(es, DropZeroLength).Ok?
    ensures |EachEntry(es, DropZeroLength).val| == 0 ==> forall k :: Dropped(Get(es, k))
    ensures (forall k :: Dropped(Get(es, k))) ==> |EachEntry(es, DropZeroLength).val| == 0
  {
    EachEntryEmpty(es, DropZeroLength);
    if |EachEntry(es, DropZeroLength).val| == 0 {
      forall k ensures Dropped(Get(es, k)) {
        if k in Keys(es) {
          var i := KeyIndex(es, k);
          assert DropZeroLength(es[i]).val.None?;
        }
      }
    } else {
      var i :| 0 <= i < |es| && DropZeroLength(es[i]).val.Some?;
      GetAt(es, i);
      assert !Dropped(Get(es, es[i].key));
    }
  }

  /** What it leaves holds no null, '' or empty array. */
  lemma {:induction false} DropZeroLengthClean(es: seq<Entry>)
    requires UniqueKeys(es) && EachEntry(es, DropZeroLength).Ok?
    ensures var d := EachEntry(es, DropZeroLength).val;
      forall i :: 0 <= i < |d| ==> !Dropped(d[i].val) && d[i].val != Arr([])
  {
    var d := EachEntry(es, DropZeroLength).val;
    EachEntryShape(es, DropZeroLength);
    forall i | 0 <= i < |d| ensures !Dropped(d[i].val) && d[i].val != Arr([]) {
      GetAt(d, i);
      EachEntryGet(es, DropZeroLength, d[i].key);
    }
  }

  /** The unset loop of `box-shadow` over an array with unique keys: it
      raises exactly on an empty array, and otherwise removes exactly the
      null and '' values. */
  lemma {:induction false} DropZeroLengthFacts(es: seq<Entry>)
    requires UniqueKeys(es)
    ensures var d := EachEntry(es, DropZeroLength);
      && (d.Fault? <==> exists k :: Get(es, k) == Arr([]))
      && (d.Ok? ==>
            && (forall k :: Get(d.val, k) == Kept(Get(es, k)))
            && (|d.val| == 0 ==> forall k :: Dropped(Get(es, k)))
            && ((forall k :: Dropped(Get(es, k))) ==> |d.val| == 0)
            && (forall i :: 0 <= i < |d.val| ==> !Dropped(d.val[i].val) && d.val[i].val != Arr([])))
  {
    DropZeroLengthFault(es);
    if EachEntry(es, DropZeroLength).Ok? {
      DropZeroLengthGet(es);
      DropZeroLengthEmpty(es);
      DropZeroLengthClean(es);
    }
  }

  /** Once the assignments succeed, an empty array is left under some key
      exactly when some assignment is broken. */
  lemma {:induction false} EmptyLeftIffBroken(es: seq<Entry>, text: Value -> Outcome, color: Value -> Outcome, p: seq<Entry>)
    requires forall k :: Shadowed(es, text, color, k).Ok?
    requires forall k :: Get(p, k) == ValueOf(Shadowed(es, text, color, k))
    ensures (exists k :: Get(p, k) == Arr([])) ==> exists k :: Broken(Shadowed(es, text, color, k))
    ensures (exists k :: Broken(Shadowed(es, text, color, k))) ==> exists k :: Get(p, k) == Arr([])
  {
    if k :| Broken(Shadowed(es, text, color, k)) {
      assert ValueOf(Shadowed(es, text, color, k)) == Arr([]);
      assert Get(p, k) == Arr([]);
    }
    if k :| Get(p, k) == Arr([]) {
      assert ValueOf(Shadowed(es, text, color, k)) == Arr([]);
      assert Broken(Shadowed(es, text, color, k));
    }
  }

  /** `box-shadow` for any text and colour rules raises exactly when some
      key's assignment raises or leaves an empty array. */
  lemma {:induction false} BoxShadowLoopFault(es: seq<Entry>, text: Value -> Outcome, color: Value -> Outcome)
    requires UniqueKeys(es)
    ensures BoxShadow(es, text, color).Fault? <==> exists k :: Broken(Shadowed(es, text, color, k))
  {
    var p := BoxShadowPrepare(es, text, color);
    BoxShadowPrepareFault(es, text, color);
    if p.Ok? {
      BoxShadowPrepareGet(es, text, color);
      DropZeroLengthFault(p.val);
      EmptyLeftIffBroken(es, text, color, p.val);
      assert BoxShadow(es, text, color).Fault? <==> EachEntry(p.val, DropZeroLength).Fault?;
    } else {
      var k :| Shadowed(es, text, color, k).Fault?;
      assert Broken(Shadowed(es, text, color, k));
    }
  }

  /** Once the assignments succeed, every key's value is null or '' exactly
      when every assignment leaves nothing. */
  lemma {:induction false} AllDroppedIffNothingLeft(es: seq<Entry>, text: Value -> Outcome, color: Value -> Outcome, p: seq<Entry>)
    requires forall k :: Shadowed(es, text, color, k).Ok?
    requires forall k :: Get(p, k) == ValueOf(Shadowed(es, text, color, k))
    ensures (forall k :: Dropped(Get(p, k))) ==> forall k :: LeavesNothing(Shadowed(es, text, color, k))
    ensures (forall k :: LeavesNothing(Shadowed(es, text, color, k))) ==> forall k :: Dropped(Get(p, k))
  {
    if forall k :: Dropped(Get(p, k)) {
      forall k ensures LeavesNothing(Shadowed(es, text, color, k)) {
        assert Dropped(Get(p, k));
      }
    }
    if forall k :: LeavesNothing(Shadowed(es, text, color, k)) {
      forall k ensures Dropped(Get(p, k)) {
        assert LeavesNothing(Shadowed(es, text, color, k));
      }
    }
  }

  /** What `box-shadow` leaves, for any text and colour rules: every key
      holds its assignment unless that is null or '', no null, '' or empty
      array remains, and '' when nothing does. */
  lemma {:induction false} BoxShadowLoopResult(es: seq<Entry>, text: Value -> Outcome, color: Value -> Outcome)
    requires UniqueKeys(es)
    ensures var o := BoxShadow(es, text, color);
      o.Ok? ==>
        && (o.val == Str("") ==> forall k :: LeavesNothing(Shadowed(es, text, color, k)))
        && ((forall k :: LeavesNothing(Shadowed(es, text, color, k))) ==> o.val == Str(""))
        && (o.val != Str("") ==>
              && o.val.Arr?
              && (forall k :: Get(o.val.entries, k) == Kept(ValueOf(Shadowed(es, text, color, k))))
              && (forall i :: 0 <= i < |o.val.entries| ==>
                    !Dropped(o.val.entries[i].val) && o.val.entries[i].val != Arr([])))
  {
    var p := BoxShadowPrepare(es, text, color);
    BoxShadowPrepareFault(es, text, color);
    if p.Ok? {
      BoxShadowPrepareGet(es, text, color);
      DropZeroLengthFacts(p.val);
      AllDroppedIffNothingLeft(es, text, color, p.val);
    }
  }

  /** The value `box-shadow` assigns to one key before its unset loop. */
  function ShadowValue(env: Env, es: seq<Entry>, fid: string, k: Key): Outcome {
    if k == Inset then Ok(if IsSet(es, Inset) then Str("inset") else Str(""), [])
    else if IsShadowText(k) then Validate(env, Get(es, k), "text", fid)
    else if k == Color then Validate(env, Get(es, k), "colorpicker", fid)
    else Ok(Get(es, k), [])
  }

  lemma {:induction false} BoxShadowDispatch(env: Env, es: seq<Entry>, fid: string)
    requires |es| > 0 && !FalsyString(fid)
    ensures Validate(env, Arr(es), "box-shadow", fid)
         == BoxShadow(es, v => Validate(env, v, "text", fid), v => Validate(env, v, "colorpicker", fid))
    ensures forall k ::
      ShadowValue(env, es, fid, k) == Shadowed(es, v => Validate(env, v, "text", fid), v => Validate(env, v, "colorpicker", fid), k)
  {
  }

  /** `text` never reports an error. */
  lemma {:induction false} TextReportsNothing(env: Env, fid: string)
    ensures forall v :: ErrorsOf(Validate(env, v, "text", fid)) == []
  {
  }

  /** `box-shadow` raises exactly when some assignment raises (a text or
      colour rule given an array) or leaves an empty array for the unset
      loop's `strlen`. */
  lemma {:induction false} BoxShadowFaults(env: Env, es: seq<Entry>, fid: string)
    requires UniqueKeys(es) && |es| > 0 && !FalsyString(fid)
    ensures Validate(env, Arr(es), "box-shadow", fid).Fault? <==> exists k :: Broken(ShadowValue(env, es, fid, k))
  {
    var text := v => Validate(env, v, "text", fid);
    var color := v => Validate(env, v, "colorpicker", fid);
    BoxShadowDispatch(env, es, fid);
    BoxShadowLoopFault(es, text, color);
    if exists k :: Broken(ShadowValue(env, es, fid, k)) {
      var k :| Broken(ShadowValue(env, es, fid, k));
      assert Broken(Shadowed(es, text, color, k));
    }
    if exists k :: Broken(Shadowed(es, text, color, k)) {
      var k :| Broken(Shadowed(es, text, color, k));
      assert Broken(ShadowValue(env, es, fid, k));
    }
  }

  /** `box-shadow` reports only the colour's errors. */
  lemma {:induction false} BoxShadowErrors(env: Env, es: seq<Entry>, fid: string)
    requires |es| > 0 && !FalsyString(fid)
    ensures var o := Validate(env, Arr(es), "box-shadow", fid);
      o.Ok? ==> o.errors == ErrorsOf(Validate(env, Get(es, Color), "colorpicker", fid))
  {
    BoxShadowDispatch(env, es, fid);
    TextReportsNothing(env, fid);
    BoxShadowPrepareErrors(es, v => Validate(env, v, "text", fid), v => Validate(env, v, "colorpicker", fid));
  }

  /** What `box-shadow` leaves: `inset` becomes 'inset' when it was set and
      is removed otherwise; offsets and radii hold their `text` result and
      `color` its `colorpicker` result, each removed when null or ''; every
      other key is kept unless null or ''; no null, '' or empty array
      remains; and '' when nothing does. */
  lemma {:induction false} BoxShadowResult(env: Env, es: seq<Entry>, fid: string)
    requires UniqueKeys(es) && |es| > 0 && !FalsyString(fid)
    ensures var o := Validate(env, Arr(es), "box-shadow", fid);
      o.Ok? ==>
        && (o.val == Str("") <==> forall k :: LeavesNothing(ShadowValue(env, es, fid, k)))
        && (o.val != Str("") ==>
              && o.val.Arr?
              && Get(o.val.entries, Inset) == (if IsSet(es, Inset) then Str("inset") else Null)
              && (forall k :: Get(o.val.entries, k) == Kept(ValueOf(ShadowValue(env, es, fid, k))))
              && (forall i :: 0 <= i < |o.val.entries| ==>
                    !Dropped(o.val.entries[i].val) && o.val.entries[i].val != Arr([])))
  {
    var text := v => Validate(env, v, "text", fid);
    var color := v => Validate(env, v, "colorpicker", fid);
    BoxShadowDispatch(env, es, fid);
    BoxShadowLoopResult(es, text, color);
    assert (forall k :: LeavesNothing(ShadowValue(env, es, fid, k)))
       <==> forall k :: LeavesNothing(Shadowed(es, text, color, k)) by {
      if forall k :: LeavesNothing(ShadowValue(env, es, fid, k)) {
        forall k ensures LeavesNothing(Shadowed(es, text, color, k)) {
          assert LeavesNothing(ShadowValue(env, es, fid, k));
        }
      }
      if forall k :: LeavesNothing(Shadowed(es, text, color, k)) {
        forall k ensures LeavesNothing(ShadowValue(env, es, fid, k)) {
          assert LeavesNothing(Shadowed(es, text, color, k));
        }
      }
    }
    var o := Validate(env, Arr(es), "box-shadow", fid);
    if o.Ok? && o.val != Str("") {
      assert Get(o.val.entries, Inset) == Kept(ValueOf(Shadowed(es, text, color, Inset)));
    }
  }

  // --------------------------------------------------------- google-fonts

  /** The values of an array, in order. */
  function Values(es: seq<Entry>): (vs: seq<Value>)
    ensures |vs| == |es| && forall i :: 0 <= i < |es| ==> vs[i] == es[i].val
  {
    seq(|es|, i requires 0 <= i < |es| => es[i].val)
  }

  lemma {:induction false} GoogleFontsDispatch(env: Env, es: seq<Entry>, fid: string)
    requires |es| > 0 && !FalsyString(fid)
    ensures Validate(env, Arr(es), "google-fonts", fid) == GoogleFonts(es)
  {
  }

  /** `google-fonts`: never an error; the `%key%` template row is removed,
      the other values keep their order and are renumbered 0, 1, ...; ''
      when the template was the only row. */
  lemma {:induction false} GoogleFontsRule(env: Env, es: seq<Entry>, fid: string)
    requires UniqueKeys(es) && |es| > 0 && !FalsyString(fid)
    ensures var o := Validate(env, Arr(es), "google-fonts", fid);
      && o.Ok? && o.errors == []
      && (o.val == Str("") <==> Keys(es) == [KeyTemplate])
      && (o.val != Str("") ==>
            && o.val.Arr?
            && KeyTemplate !in Keys(o.val.entries)
            && (forall i :: 0 <= i < |o.val.entries| ==> o.val.entries[i].key == Idx(i))
            && (KeyTemplate !in Keys(es) ==> Values(o.val.entries) == Values(es))
            && (forall t :: 0 <= t < |es| && es[t].key == KeyTemplate ==>
                  Values(o.val.entries) == Values(es[..t] + es[t + 1..])))
  {
    GoogleFontsDispatch(env, es, fid);
    var rest := Unset(es, KeyTemplate);
    if KeyTemplate in Keys(es) {
      var t := KeyIndex(es, KeyTemplate);
      UnsetAt(es, t);
      assert |rest| == |es| - 1;
      forall t' | 0 <= t' < |es| && es[t'].key == KeyTemplate ensures t' == t {
        if t' != t {
          DistinctKeys(es, t, t');
        }
      }
      if |rest| == 0 {
        assert Keys(es) == [KeyTemplate];
      } else {
        assert Keys(es) != [KeyTemplate];
      }
    } else {
      UnsetAbsent(es, KeyTemplate);
      assert Keys(es) != [KeyTemplate] by {
        assert Keys(es)[0] != KeyTemplate;
      }
    }
  }

  // --------------------------------------------------- background, typography

  lemma {:induction false} BackgroundDispatch(env: Env, es: seq<Entry>, fid: string)
    requires |es| > 0 && !FalsyString(fid)
    ensures Validate(env, Arr(es), "background", fid)
         == Background(es, v => Validate(env, v, "colorpicker", fid), v => Validate(env, v, "upload", fid))
  {
  }

  /** `upload` never reports an error. */
  lemma {:induction false} UploadReportsNothing(env: Env, fid: string)
    ensures forall v :: ErrorsOf(Validate(env, v, "upload", fid)) == []
  {
  }

  /** After two keys are rewritten (the rest left alone), some value is
      truthy exactly when one of the two new values is, or some other key
      already held a truthy value. */
  lemma {:induction false} TruthyAfterRewrite(es: seq<Entry>, es2: seq<Entry>, k1: Key, v1: Value, k2: Key, v2: Value)
    requires UniqueKeys(es2)
    requires Get(es2, k1) == v1 && Get(es2, k2) == v2
    requires forall k :: k != k1 && k != k2 ==> Get(es2, k) == Get(es, k)
    ensures !AnyTruthy(es2) <==>
      Empty(v1) && Empty(v2) && forall k :: k != k1 && k != k2 ==> Empty(Get(es, k))
  {
    TruthyByKey(es2);
    if !AnyTruthy(es2) {
      assert Empty(Get(es2, k1)) && Empty(Get(es2, k2));
      forall k | k != k1 && k != k2 ensures Empty(Get(es, k)) {
        assert Empty(Get(es2, k));
      }
    } else {
      var k :| !Empty(Get(es2, k));
      if k != k1 && k != k2 {
        assert Get(es2, k) == Get(es, k);
        assert !(forall k' :: k' != k1 && k' != k2 ==> Empty(Get(es, k')));
      }
    }
  }

  /** The two re-validations of `background` raise exactly when one of
      them does. */
  lemma {:induction false} BackgroundStepsFault(es: seq<Entry>, color: Value -> Outcome, upload: Value -> Outcome)
    ensures var r := RevalidateAll(Ok(es, []), [Step(BackgroundColor, color), Step(BackgroundImage, upload)]);
      r.Fault? <==> color(Get(es, BackgroundColor)).Fault? || upload(Get(es, BackgroundImage)).Fault?
  {
    var steps := [Step(BackgroundColor, color), Step(BackgroundImage, upload)];
    assert DistinctSteps(steps);
    RevalidateAllFaults(es, [], steps);
    if RevalidateAll(Ok(es, []), steps).Fault? {
      var i :| 0 <= i < 2 && steps[i].rule(Get(es, steps[i].key)).Fault?;
    }
  }

  /** What the two re-validations of `background` leave, for any colour and
      upload rules. */
  lemma {:induction false} BackgroundSteps(es: seq<Entry>, color: Value -> Outcome, upload: Value -> Outcome)
    requires UniqueKeys(es)
    ensures var r := RevalidateAll(Ok(es, []), [Step(BackgroundColor, color), Step(BackgroundImage, upload)]);
      var c := color(Get(es, BackgroundColor));
      var u := upload(Get(es, BackgroundImage));
      && (r.Fault? <==> c.Fault? || u.Fault?)
      && (r.Ok? ==>
            && r.errors == c.errors + u.errors
            && UniqueKeys(r.val)
            && Get(r.val, BackgroundColor) == c.val
            && Get(r.val, BackgroundImage) == u.val
            && forall k :: k != BackgroundColor && k != BackgroundImage ==> Get(r.val, k) == Get(es, k))
  {
    var steps := [Step(BackgroundColor, color), Step(BackgroundImage, upload)];
    assert DistinctSteps(steps);
    BackgroundStepsFault(es, color, upload);
    var r := RevalidateAll(Ok(es, []), steps);
    if r.Ok? {
      RevalidateAllGet(es, [], steps);
      RevalidateAllErrors(es, [], steps);
      RevalidateAllUnique(es, [], steps);
      FlattenTwo(StepErrors(es, steps));
    }
  }

  /** `background`, for any colour and upload rules: it raises exactly when
      one of the two re-validations raises; it reports their errors; the two
      keys hold their results and every other key is unchanged; and the
      result is '' exactly when no value is truthy afterwards. */
  lemma {:induction false} BackgroundLoop(es: seq<Entry>, color: Value -> Outcome, upload: Value -> Outcome)
    requires UniqueKeys(es)
    ensures var o := Background(es, color, upload);
      var c := color(Get(es, BackgroundColor));
      var u := upload(Get(es, BackgroundImage));
      && (o.Fault? <==> c.Fault? || u.Fault?)
      && (o.Ok? ==>
            && o.errors == c.errors + u.errors
            && (o.val == Str("") <==>
                  Empty(c.val) && Empty(u.val)
                  && forall k :: k != BackgroundColor && k != BackgroundImage ==> Empty(Get(es, k)))
            && (o.val != Str("") ==>
                  && o.val.Arr?
                  && Get(o.val.entries, BackgroundColor) == c.val
                  && Get(o.val.entries, BackgroundImage) == u.val
                  && forall k :: k != BackgroundColor && k != BackgroundImage ==> Get(o.val.entries, k) == Get(es, k)))
  {
    BackgroundSteps(es, color, upload);
    var r := RevalidateAll(Ok(es, []), [Step(BackgroundColor, color), Step(BackgroundImage, upload)]);
    if r.Ok? {
      TruthyAfterRewrite(es, r.val, BackgroundColor, color(Get(es, BackgroundColor)).val,
        BackgroundImage, upload(Get(es, BackgroundImage)).val);
    }
  }

  /** `background`: it raises exactly when the colour or the image
      re-validation raises (an array given to `preg_match` or
      `esc_url_raw`); it reports the colour's errors; both keys hold their
      re-validated values and every other key is unchanged; and the value
      is '' exactly when no value is truthy after re-validation. */
  lemma {:induction false} BackgroundRule(env: Env, es: seq<Entry>, fid: string)
    requires UniqueKeys(es) && |es| > 0 && !FalsyString(fid)
    ensures var o := Validate(env, Arr(es), "background", fid);
      var c := Validate(env, Get(es, BackgroundColor), "colorpicker", fid);
      var u := Validate(env, Get(es, BackgroundImage), "upload", fid);
      && (o.Fault? <==> c.Fault? || u.Fault?)
      && (o.Ok? ==>
            && o.errors == c.errors
            && (o.val == Str("") <==>
                  Empty(c.val) && Empty(u.val)
                  && forall k :: k != BackgroundColor && k != BackgroundImage ==> Empty(Get(es, k)))
            && (o.val != Str("") ==>
                  && o.val.Arr?
                  && Get(o.val.entries, BackgroundColor) == c.val
                  && Get(o.val.entries, BackgroundImage) == u.val
                  && forall k :: k != BackgroundColor && k != BackgroundImage ==> Get(o.val.entries, k) == Get(es, k)))
  {
    BackgroundDispatch(env, es, fid);
    UploadReportsNothing(env, fid);
    BackgroundLoop(es, v => Validate(env, v, "colorpicker", fid), v => Validate(env, v, "upload", fid));
  }

  lemma {:induction false} TypographyDispatch(env: Env, es: seq<Entry>, fid: string)
    requires |es| > 0 && !FalsyString(fid)
    ensures IsSet(es, FontColor) ==>
      Validate(env, Arr(es), "typography", fid) == Typography(es, v => Validate(env, v, "colorpicker", fid))
    ensures !IsSet(es, FontColor) ==> Validate(env, Arr(es), "typography", fid) == Ok(Arr(es), [])
  {
    var t := "typography";
    assert t[0] == 't';
    assert t != "background" && t != "box-shadow" && t != "javascript" && t != "link-color";
    assert !IsTextType(t) && Rank(t) == 2;
  }

  /** The one re-validation of `typography`, for any colour rule. */
  lemma {:induction false} TypographySteps(es: seq<Entry>, color: Value -> Outcome)
    requires UniqueKeys(es)
    ensures var r := RevalidateAll(Ok(es, []), [Step(FontColor, color)]);
      var c := color(Get(es, FontColor));
      && (r.Fault? <==> c.Fault?)
      && (r.Ok? ==>
            && r.errors == c.errors
            && UniqueKeys(r.val)
            && Get(r.val, FontColor) == c.val
            && forall k :: k != FontColor ==> Get(r.val, k) == Get(es, k))
  {
    var steps := [Step(FontColor, color)];
    RevalidateAllFaults(es, [], steps);
    var r := RevalidateAll(Ok(es, []), steps);
    if r.Ok? {
      RevalidateAllGet(es, [], steps);
      RevalidateAllErrors(es, [], steps);
      RevalidateAllUnique(es, [], steps);
      FlattenOne(StepErrors(es, steps));
    }
  }

  /** `typography` once `font-color` is set, for any colour rule. */
  lemma {:induction false} TypographyLoop(es: seq<Entry>, color: Value -> Outcome)
    requires UniqueKeys(es)
    ensures var o := Typography(es, color);
      var c := color(Get(es, FontColor));
      && (o.Fault? <==> c.Fault?)
      && (o.Ok? ==>
            && o.errors == c.errors
            && (o.val == Str("") <==> Empty(c.val) && forall k :: k != FontColor ==> Empty(Get(es, k)))
            && (o.val != Str("") ==>
                  && o.val.Arr?
                  && Get(o.val.entries, FontColor) == c.val
                  && forall k :: k != FontColor ==> Get(o.val.entries, k) == Get(es, k)))
  {
    TypographySteps(es, color);
    var r := RevalidateAll(Ok(es, []), [Step(FontColor, color)]);
    if r.Ok? {
      var c := color(Get(es, FontColor)).val;
      TruthyAfterRewrite(es, r.val, FontColor, c, FontColor, c);
    }
  }

  /** `typography`: without a set `font-color` the array passes unchanged
      (the rule's condition fails and no other branch applies). With one, it
      raises exactly when the colour re-validation raises, reports the
      colour's errors, keeps every other key, and is '' exactly when no
      value is truthy after re-validation. */
  lemma {:induction false} TypographyRule(env: Env, es: seq<Entry>, fid: string)
    requires UniqueKeys(es) && |es| > 0 && !FalsyString(fid)
    ensures var o := Validate(env, Arr(es), "typography", fid);
      var c := Validate(env, Get(es, FontColor), "colorpicker", fid);
      && (!IsSet(es, FontColor) ==> o == Ok(Arr(es), []))
      && (IsSet(es, FontColor) ==>
            && (o.Fault? <==> c.Fault?)
            && (o.Ok? ==>
                  && o.errors == c.errors
                  && (o.val == Str("") <==> Empty(c.val) && forall k :: k != FontColor ==> Empty(Get(es, k)))
                  && (o.val != Str("") ==>
                        && o.val.Arr?
                        && Get(o.val.entries, FontColor) == c.val
                        && forall k :: k != FontColor ==> Get(o.val.entries, k) == Get(es, k))))
  {
    TypographyDispatch(env, es, fid);
    TypographyLoop(es, v => Validate(env, v, "colorpicker", fid));
  }

  // ------------------------------------------------------------ link-color

  /** `colorpicker` on a non-empty string: a colour either expression
      accepts is kept, anything else becomes '' with one `invalid_hex`. */
  lemma {:induction false} ColorpickerOnScalar(env: Env, v: Value, fid: string)
    requires !Empty(v) && !v.Arr? && !FalsyString(fid)
    ensures Validate(env, v, "colorpicker", fid)
         == if BadColor(v) then Ok(Str(""), [Error("invalid_hex", fid)]) else Ok(v, [])
  {
    assert Validate(env, v, "colorpicker", fid) == Colorpicker(v, fid);
  }

  /** One `invalid_hex` per bad colour, in array order, each naming the
      entry's own sub-field id. */
  function HexErrors(es: seq<Entry>, fid: string): (errs: seq<Error>)
    ensures forall e :: e in errs ==>
      e.code == "invalid_hex" && exists i :: 0 <= i < |es| && BadColor(es[i].val) && e.field == SubFieldId(fid, es[i].key)
    decreases |es|
  {
    if |es| == 0 then []
    else
      var rest := HexErrors(es[1..], fid);
      assert forall e :: e in rest ==> exists i :: 1 <= i < |es| && BadColor(es[i].val) && e.field == SubFieldId(fid, es[i].key)
        by {
          forall e | e in rest
            ensures exists i :: 1 <= i < |es| && BadColor(es[i].val) && e.field == SubFieldId(fid, es[i].key)
          {
            var j :| 0 <= j < |es[1..]| && BadColor(es[1..][j].val) && e.field == SubFieldId(fid, es[1..][j].key);
            assert es[1..][j] == es[j + 1];
          }
        }
      (if BadColor(es[0].val) then [Error("invalid_hex", SubFieldId(fid, es[0].key))] else []) + rest
  }

  lemma {:induction false} LinkColorErrorsAreBadFields(env: Env, es: seq<Entry>, fid: string)
    requires !FalsyString(fid)
    requires forall i :: 0 <= i < |es| ==> Empty(es[i].val) || !es[i].val.Arr?
    ensures Flatten(EntryErrors(es, e => LinkColorEntry(e, (v, f) => Validate(env, v, "colorpicker", f), fid)))
         == HexErrors(es, fid)
    decreases |es|
  {
    if |es| > 0 {
      var f := e => LinkColorEntry(e, (v, f) => Validate(env, v, "colorpicker", f), fid);
      EntryErrorsCons(es, f);
      LinkColorErrorsAreBadFields(env, es[1..], fid);
      if !Empty(es[0].val) {
        ColorpickerOnScalar(env, es[0].val, SubFieldId(fid, es[0].key));
      }
    }
  }

  lemma {:induction false} LinkColorDispatch(env: Env, es: seq<Entry>, fid: string)
    requires |es| > 0 && !FalsyString(fid)
    ensures Validate(env, Arr(es), "link-color", fid)
         == LinkColor(es, (v, f) => Validate(env, v, "colorpicker", f), fid)
  {
  }

  /** `link-color`, for any colour rule: it raises exactly when the rule
      raises on some non-empty value; it is '' exactly when no value was
      truthy; otherwise every key stays, an empty value is kept as it is and
      a non-empty one holds the rule's result under its sub-field id. */
  lemma {:induction false} LinkColorLoop(es: seq<Entry>, color: (Value, string) -> Outcome, fid: string)
    requires UniqueKeys(es)
    ensures var o := LinkColor(es, color, fid);
      && (o.Fault? <==> exists i :: 0 <= i < |es| && !Empty(es[i].val) && color(es[i].val, SubFieldId(fid, es[i].key)).Fault?)
      && (o.Ok? ==>
            && o.errors == Flatten(EntryErrors(es, e => LinkColorEntry(e, color, fid)))
            && (o.val == Str("") <==> !AnyTruthy(es))
            && (AnyTruthy(es) ==>
                  && o.val.Arr?
                  && (forall k :: k in Keys(o.val.entries) <==> k in Keys(es))
                  && forall k :: Get(o.val.entries, k)
                       == if Empty(Get(es, k)) then Get(es, k) else ValueOf(color(Get(es, k), SubFieldId(fid, k)))))
  {
    var f := e => LinkColorEntry(e, color, fid);
    var r := EachEntry(es, f);
    if r.Ok? {
      forall k ensures (k in Keys(r.val) <==> k in Keys(es))
        && Get(r.val, k) == if Empty(Get(es, k)) then Get(es, k) else ValueOf(color(Get(es, k), SubFieldId(fid, k)))
      {
        EachEntryGet(es, f, k);
      }
    }
  }

  /** `link-color` raises exactly when some value is a non-empty array
      (`preg_match` of an array). */
  lemma {:induction false} LinkColorFaults(env: Env, es: seq<Entry>, fid: string)
    requires UniqueKeys(es) && |es| > 0 && !FalsyString(fid)
    ensures Validate(env, Arr(es), "link-color", fid).Fault? <==>
      exists i :: 0 <= i < |es| && es[i].val.Arr? && !Empty(es[i].val)
  {
    LinkColorDispatch(env, es, fid);
    LinkColorLoop(es, (v, f) => Validate(env, v, "colorpicker", f), fid);
    forall i | 0 <= i < |es| && !Empty(es[i].val)
      ensures Validate(env, es[i].val, "colorpicker", SubFieldId(fid, es[i].key)).Fault? <==> es[i].val.Arr?
    {
      ColorpickerErrors(env, es[i].val, SubFieldId(fid, es[i].key));
    }
  }

  /** `link-color` reports one `invalid_hex` per bad colour, in array
      order, naming the field id joined to the entry's key. */
  lemma {:induction false} LinkColorErrors(env: Env, es: seq<Entry>, fid: string)
    requires UniqueKeys(es) && |es| > 0 && !FalsyString(fid)
    ensures var o := Validate(env, Arr(es), "link-color", fid);
      o.Ok? ==> o.errors == HexErrors(es, fid)
  {
    LinkColorFaults(env, es, fid);
    LinkColorDispatch(env, es, fid);
    LinkColorLoop(es, (v, f) => Validate(env, v, "colorpicker", f), fid);
    if Validate(env, Arr(es), "link-color", fid).Ok? {
      LinkColorErrorsAreBadFields(env, es, fid);
    }
  }

  /** `link-color` gives '' exactly when no value was truthy; otherwise it
      keeps every key, keeps empty values and good colours, and blanks a bad
      colour. */
  lemma {:induction false} LinkColorResult(env: Env, es: seq<Entry>, fid: string)
    requires UniqueKeys(es) && |es| > 0 && !FalsyString(fid)
    ensures var o := Validate(env, Arr(es), "link-color", fid);
      o.Ok? ==>
        && (o.val == Str("") <==> !AnyTruthy(es))
        && (AnyTruthy(es) ==>
              && o.val.Arr?
              && (forall k :: k in Keys(o.val.entries) <==> k in Keys(es))
              && forall k :: Get(o.val.entries, k) == if BadColor(Get(es, k)) then Str("") else Get(es, k))
  {
    LinkColorFaults(env, es, fid);
    LinkColorDispatch(env, es, fid);
    LinkColorLoop(es, (v, f) => Validate(env, v, "colorpicker", f), fid);
    var o := Validate(env, Arr(es), "link-color", fid);
    if o.Ok? && AnyTruthy(es) {
      forall k ensures Get(o.val.entries, k) == if BadColor(Get(es, k)) then Str("") else Get(es, k) {
        var v := Get(es, k);
        if !Empty(v) {
          var i := KeyIndex(es, k);
          ColorpickerOnScalar(env, v, SubFieldId(fid, k));
        }
      }
    }
  }

  // ---------------------------------------------------------- social-links

  /** What `social-links` leaves of one profile field: an empty field
      stays, an array becomes '', any other value its sanitised text. */
  function SanitizedField(env: Env, v: Value): Value {
    if Empty(v) then v
    else if v.Arr? then Str("")
    else Str(env.sanitizeTextField(v.s))
  }

  /** The inner loop over one profile's fields. */
  lemma {:induction false} SocialItems(env: Env, items: seq<Entry>)
    requires UniqueKeys(items)
    ensures var r := EachEntry(items, item => SocialItem(env, item));
      && r.Ok?
      && r.errors == []
      && (forall ik :: ik in Keys(r.val) <==> ik in Keys(items))
      && forall ik :: Get(r.val, ik) == SanitizedField(env, Get(items, ik))
  {
    var f := item => SocialItem(env, item);
    var r := EachEntry(items, f);
    forall ik ensures (ik in Keys(r.val) <==> ik in Keys(items)) && Get(r.val, ik) == SanitizedField(env, Get(items, ik)) {
      EachEntryGet(items, f, ik);
    }
    NoItemErrors(env, items);
  }

  lemma {:induction false} NoItemErrors(env: Env, items: seq<Entry>)
    ensures Flatten(EntryErrors(items, item => SocialItem(env, item))) == []
    decreases |items|
  {
    if |items| > 0 {
      EntryErrorsCons(items, item => SocialItem(env, item));
      NoItemErrors(env, items[1..]);
    }
  }

  lemma {:induction false} SocialLinksDispatch(env: Env, es: seq<Entry>, fid: string)
    requires |es| > 0 && !FalsyString(fid)
    ensures Validate(env, Arr(es), "social-links", fid) == SocialLinks(env, Arr(es))
  {
  }

  /** `social-links` never raises, whatever it is given: `sanitize_text_field`
      answers '' for a field that is itself an array. */
  lemma {:induction false} SocialLinksNeverRaises(env: Env, v: Value, fid: string)
    ensures Validate(env, v, "social-links", fid).Ok?
  {
    if v.Arr? && !Empty(v) && !FalsyString(fid) {
      SocialLinksDispatch(env, v.entries, fid);
      var es := v.entries;
      forall i | 0 <= i < |es|
        ensures SocialEntry(env, es[i]).Ok?
      {
        if !Empty(es[i].val) && es[i].val.Arr? {
          var items := es[i].val.entries;
          assert EachEntry(items, item => SocialItem(env, item)).Ok?;
        }
      }
    }
  }

  /** `social-links` never reports an error; it is '' exactly when no
      profile held a truthy field; otherwise every profile stays, a profile
      that is not a non-empty array is kept as it is, and each field of the
      others is sanitised, keeping its key. */
  lemma {:induction false} SocialLinksResult(env: Env, es: seq<Entry>, fid: string)
    requires UniqueKeys(es) && |es| > 0 && !FalsyString(fid)
    requires forall i :: 0 <= i < |es| && es[i].val.Arr? ==> UniqueKeys(es[i].val.entries)
    ensures var o := Validate(env, Arr(es), "social-links", fid);
      && o.Ok?
      && o.errors == []
      && (o.val == Str("") <==> !HasSocialValue(es))
      && (HasSocialValue(es) ==>
            && o.val.Arr?
            && (forall k :: k in Keys(o.val.entries) <==> k in Keys(es))
            && forall k :: var v := Get(es, k);
                 && (!v.Arr? || Empty(v) ==> Get(o.val.entries, k) == v)
                 && (v.Arr? && !Empty(v) ==>
                       && Get(o.val.entries, k).Arr?
                       && (forall ik :: ik in Keys(Get(o.val.entries, k).entries) <==> ik in Keys(v.entries))
                       && forall ik :: Get(Get(o.val.entries, k).entries, ik) == SanitizedField(env, Get(v.entries, ik))))
  {
    SocialLinksDispatch(env, es, fid);
    SocialLinksNeverRaises(env, Arr(es), fid);
    var f := e => SocialEntry(env, e);
    var r := EachEntry(es, f);
    if r.Ok? {
      forall k ensures (k in Keys(r.val) <==> k in Keys(es))
        && var v := Get(es, k);
           && (!v.Arr? || Empty(v) ==> Get(r.val, k) == v)
           && (v.Arr? && !Empty(v) ==>
                 && Get(r.val, k).Arr?
                 && (forall ik :: ik in Keys(Get(r.val, k).entries) <==> ik in Keys(v.entries))
                 && forall ik :: Get(Get(r.val, k).entries, ik) == SanitizedField(env, Get(v.entries, ik)))
      {
        EachEntryGet(es, f, k);
        var v := Get(es, k);
        if v.Arr? && !Empty(v) {
          var i := KeyIndex(es, k);
          SocialItems(env, v.entries);
        }
      }
    }
  }

  /** "#zz" matches neither colour expression. */
  lemma {:induction false} NotAColour()
    ensures BadColor(Str("#zz"))
  {
    assert RgbaPattern[0] == One(NoCase('r'));
  }

  /** `link-color` on a one-entry array whose value is truthy. */
  lemma {:induction false} LinkColorSingle(k: Key, v: Value, color: (Value, string) -> Outcome, fid: string)
    requires !Empty(v) && color(v, SubFieldId(fid, k)).Ok?
    ensures var c := color(v, SubFieldId(fid, k));
      LinkColor([Entry(k, v)], color, fid) == Ok(Arr([Entry(k, c.val)]), c.errors)
  {
    var es := [Entry(k, v)];
    var f := e => LinkColorEntry(e, color, fid);
    var c := color(v, SubFieldId(fid, k));
    assert EachEntry(es[1..], f) == Ok([], []) by { assert es[1..] == []; }
    assert [Entry(k, c.val)] + [] == [Entry(k, c.val)];
    assert c.errors + [] == c.errors;
    assert AnyTruthy(es) by { assert !Empty(es[0].val); }
  }

  /** A bad colour alone in a `link-color` array is blanked, with its
      error, and the array is kept because its value was truthy. */
  lemma {:induction false} LinkColorBlanksBadColour(env: Env, k: Key, v: Value, fid: string)
    requires BadColor(v) && !FalsyString(fid)
    ensures Validate(env, Arr([Entry(k, v)]), "link-color", fid)
         == Ok(Arr([Entry(k, Str(""))]), [Error("invalid_hex", SubFieldId(fid, k))])
  {
    LinkColorDispatch(env, [Entry(k, v)], fid);
    ColorpickerOnScalar(env, v, SubFieldId(fid, k));
    LinkColorSingle(k, v, (v, f) => Validate(env, v, "colorpicker", f), fid);
  }

  /** A blank colour alone in a `link-color` array collapses to ''. */
  lemma {:induction false} LinkColorCollapsesBlank(env: Env, k: Key, fid: string)
    requires !FalsyString(fid)
    ensures Validate(env, Arr([Entry(k, Str(""))]), "link-color", fid) == Ok(Str(""), [])
  {
    var es := [Entry(k, Str(""))];
    var f := e => LinkColorEntry(e, (v, f) => Validate(env, v, "colorpicker", f), fid);
    LinkColorDispatch(env, es, fid);
    assert f(es[0]) == Ok(Some(Str("")), []);
    assert EachEntry(es[1..], f) == Ok([], []) by { assert es[1..] == []; }
    assert !AnyTruthy(es);
  }

  /** `link-color` is not idempotent: re-validating its own output can
      change it, because emptiness is judged before the colours are
      blanked. */
  lemma {:induction false} LinkColorNotIdempotent(env: Env, fid: string)
    requires !FalsyString(fid)
    ensures exists v :: var once := Validate(env, v, "link-color", fid);
      once.Ok? && Validate(env, once.val, "link-color", fid) != Ok(once.val, [])
  {
    var k := Name("link");
    var blanked := Arr([Entry(k, Str(""))]);
    NotAColour();
    LinkColorBlanksBadColour(env, k, Str("#zz"), fid);
    LinkColorCollapsesBlank(env, k, fid);
    assert Str("") != blanked;
    var once := Validate(env, Arr([Entry(k, Str("#zz"))]), "link-color", fid);
    assert once.Ok? && Validate(env, once.val, "link-color", fid) != Ok(once.val, []);
  }

  /** One link, `fb`, whose `url` field is itself an array. */
  const ArrayUrl: Value := Arr([Entry(Name("fb"), Arr([Entry(Name("url"), Arr([Entry(Idx(0), Str("x"))]))]))])

  /** The same link with its `url` field blank. */
  const BlankUrl: Value := Arr([Entry(Name("fb"), Arr([Entry(Name("url"), Str(""))]))])

  /** The inner loop over the `fb` link: `url` is sanitised to ''. */
  lemma {:induction false} SocialUrlItems(env: Env)
    ensures EachEntry(ArrayUrl.entries[0].val.entries, item => SocialItem(env, item))
         == Ok(BlankUrl.entries[0].val.entries, [])
  {
    var items := ArrayUrl.entries[0].val.entries;
    var fi := item => SocialItem(env, item);
    var blank := Entry(Name("url"), Str(""));
    assert fi(items[0]) == Ok(Some(Str("")), []);
    assert EachEntry(items[1..], fi) == Ok([], []) by { assert items[1..] == []; }
    var none: seq<Error> := [];
    assert [blank] + [] == [blank] && none + none == none;
  }

  /** The outer loop: the `fb` link keeps its key and gets the blank field. */
  lemma {:induction false} SocialLinkBlanked(env: Env)
    ensures EachEntry(ArrayUrl.entries, e => SocialEntry(env, e)) == Ok(BlankUrl.entries, [])
  {
    SocialUrlItems(env);
    var fe := e => SocialEntry(env, e);
    var link := ArrayUrl.entries[0];
    assert fe(link) == Ok(Some(BlankUrl.entries[0].val), []);
    assert EachEntry(ArrayUrl.entries[1..], fe) == Ok([], []) by { assert ArrayUrl.entries[1..] == []; }
    var none: seq<Error> := [];
    assert [Entry(Name("fb"), BlankUrl.entries[0].val)] + [] == BlankUrl.entries && none + none == none;
  }

  /** The array field counts as a value, and is sanitised to ''. */
  lemma {:induction false} SocialBlanksArrayField(env: Env, fid: string)
    requires !FalsyString(fid)
    ensures Validate(env, ArrayUrl, "social-links", fid) == Ok(BlankUrl, [])
  {
    SocialLinkBlanked(env);
    var items := ArrayUrl.entries[0].val.entries;
    assert HasSocialValue(ArrayUrl.entries) by {
      assert !Empty(items[0].val);
      assert AnyTruthy(items);
    }
    SocialLinksDispatch(env, ArrayUrl.entries, fid);
  }

  /** A link whose only field is blank holds no value: the result is ''. */
  lemma {:induction false} SocialCollapsesBlank(env: Env, fid: string)
    requires !FalsyString(fid)
    ensures Validate(env, BlankUrl, "social-links", fid) == Ok(Str(""), [])
  {
    SocialLinksNeverRaises(env, BlankUrl, fid);
    SocialLinksDispatch(env, BlankUrl.entries, fid);
    var items := BlankUrl.entries[0].val.entries;
    assert !AnyTruthy(items) by {
      assert |items| == 1 && Empty(items[0].val);
    }
    assert !HasSocialValue(BlankUrl.entries) by {
      assert |BlankUrl.entries| == 1;
    }
  }

  /** `social-links` is not idempotent, whatever the host functions do: a
      field that is itself an array counts as a value, then is sanitised to
      '', and on the second pass no link has a value left. */
  lemma {:induction false} SocialLinksNotIdempotent(env: Env, fid: string)
    requires !FalsyString(fid)
    ensures exists v :: var once := Validate(env, v, "social-links", fid);
      once.Ok? && Validate(env, once.val, "social-links", fid) != Ok(once.val, [])
  {
    SocialBlanksArrayField(env, fid);
    SocialCollapsesBlank(env, fid);
    assert Str("") != BlankUrl;
    var once := Validate(env, ArrayUrl, "social-links", fid);
    assert once.Ok? && Validate(env, once.val, "social-links", fid) != Ok(once.val, []);
  }

  /** `border` on a one-entry array holding only a truthy colour. */
  lemma {:induction false} BorderSingleColour(env: Env, v: Value, color: Value -> Outcome, fid: string)
    requires !Empty(v) && !v.Arr? && color(v).Ok?
    ensures Border(env, [Entry(Color, v)], color, fid) == Ok(Arr([Entry(Color, color(v).val)]), color(v).errors)
  {
    var es := [Entry(Color, v)];
    var f := e => BorderEntry(env, e, color, fid);
    assert f(es[0]) == Ok(Some(color(v).val), color(v).errors) by {
      var none: seq<Error> := [];
      assert none + color(v).errors == color(v).errors;
    }
    assert EachEntry(es[1..], f) == Ok([], []) by { assert es[1..] == []; }
    assert [Entry(Color, color(v).val)] + [] == [Entry(Color, color(v).val)];
    assert color(v).errors + [] == color(v).errors;
  }

  /** A bad colour alone in a `border` array is blanked, with its error, and
      the blank is kept. */
  lemma {:induction false} BorderBlanksBadColour(env: Env, v: Value, fid: string)
    requires BadColor(v) && !FalsyString(fid)
    ensures Validate(env, Arr([Entry(Color, v)]), "border", fid)
         == Ok(Arr([Entry(Color, Str(""))]), [Error("invalid_hex", fid)])
  {
    BorderDispatch(env, [Entry(Color, v)], fid);
    ColorpickerOnScalar(env, v, fid);
    BorderSingleColour(env, v, x => Validate(env, x, "colorpicker", fid), fid);
  }

  /** A blank colour alone in a `border` array is dropped, and the array
      collapses to ''. */
  lemma {:induction false} BorderDropsBlank(env: Env, fid: string)
    requires !FalsyString(fid)
    ensures Validate(env, Arr([Entry(Color, Str(""))]), "border", fid) == Ok(Str(""), [])
  {
    var es := [Entry(Color, Str(""))];
    var f := e => BorderEntry(env, e, x => Validate(env, x, "colorpicker", fid), fid);
    BorderDispatch(env, es, fid);
    assert f(es[0]) == Ok(None, []);
    assert EachEntry(es[1..], f) == Ok([], []) by { assert es[1..] == []; }
  }

  /** `border` is not idempotent: a blanked colour survives the first pass
      and is dropped by the second. */
  lemma {:induction false} BorderNotIdempotent(env: Env, fid: string)
    requires !FalsyString(fid)
    ensures exists v :: var once := Validate(env, v, "border", fid);
      once.Ok? && Validate(env, once.val, "border", fid) != Ok(once.val, [])
  {
    var blanked := Arr([Entry(Color, Str(""))]);
    NotAColour();
    BorderBlanksBadColour(env, Str("#zz"), fid);
    BorderDropsBlank(env, fid);
    assert Str("") != blanked;
    var once := Validate(env, Arr([Entry(Color, Str("#zz"))]), "border", fid);
    assert once.Ok? && Validate(env, once.val, "border", fid) != Ok(once.val, []);
  }
}
