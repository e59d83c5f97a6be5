/** What the sanitiser promises for the early exit, the pass-through of
    unknown types and the scalar rules (`colorpicker`,
    `colorpicker-opacity`, the text types, `upload`, `gallery`,
    `measurement`), and what the array rules do with a string. */
module LeafProps {

  import opened PhpValue
  import opened PhpString
  import opened ColorSyntax
  import opened EntryPass
  import opened Validation

  /** A falsy value, a falsy type or a falsy field id comes back untouched
      with no error, whatever the type. */
  lemma {:induction false} EarlyExit(env: Env, input: Value, t: string, fid: string)
    requires Empty(input) || FalsyString(t) || FalsyString(fid)
    ensures Validate(env, input, t, fid) == Ok(input, [])
  {
  }

  /** '' and the empty array survive every type unchanged. */
  lemma {:induction false} EmptyInEmptyOut(env: Env, t: string, fid: string)
    ensures Validate(env, Str(""), t, fid) == Ok(Str(""), [])
    ensures Validate(env, Arr([]), t, fid) == Ok(Arr([]), [])
    ensures Validate(env, Str("0"), t, fid) == Ok(Str("0"), [])
  {
  }

  /** `colorpicker` keeps exactly the strings one of its two expressions
      matches, and replaces any other string by '' with one `invalid_hex`
      error naming the field. */
  lemma {:induction false} ColorpickerRule(env: Env, s: string, fid: string)
    requires !FalsyString(s) && !FalsyString(fid)
    ensures var o := Validate(env, Str(s), "colorpicker", fid);
      && (HexPattern(s) || PrefixMatches(RgbaPattern, s) ==> o == Ok(Str(s), []))
      && (!HexPattern(s) && !PrefixMatches(RgbaPattern, s) ==> o == Ok(Str(""), [Error("invalid_hex", fid)]))
  {
    assert Validate(env, Str(s), "colorpicker", fid) == Colorpicker(Str(s), fid);
    ColorOkIsRegex(s);
  }

  /** An array handed to `colorpicker` reaches `preg_match` and raises. */
  lemma {:induction false} ColorpickerOnArray(env: Env, es: seq<Entry>, fid: string)
    requires |es| > 0 && !FalsyString(fid)
    ensures Validate(env, Arr(es), "colorpicker", fid).Fault?
  {
  }

  /** Re-validating a colour changes nothing more. */
  lemma {:induction false} ColorpickerIdempotent(env: Env, v: Value, fid: string)
    requires Validate(env, v, "colorpicker", fid).Ok?
    ensures var once := Validate(env, v, "colorpicker", fid).val;
      Validate(env, once, "colorpicker", fid) == Ok(once, [])
  {
  }

  /** `colorpicker-opacity` turns an array into '' without an error and
      otherwise is `colorpicker`. */
  lemma {:induction false} ColorpickerOpacityRule(env: Env, v: Value, fid: string)
    requires !Empty(v) && !FalsyString(fid)
    ensures v.Arr? ==> Validate(env, v, "colorpicker-opacity", fid) == Ok(Str(""), [])
    ensures !v.Arr? ==> Validate(env, v, "colorpicker-opacity", fid) == Validate(env, v, "colorpicker", fid)
  {
  }

  /** The text types run `wp_kses_post` exactly when markup is filtered. */
  lemma {:induction false} TextRule(env: Env, s: string, t: string, fid: string)
    requires IsTextType(t) && !FalsyString(s) && !FalsyString(fid)
    ensures FiltersHtml(env) ==> Validate(env, Str(s), t, fid) == Ok(Str(env.ksesPost(s)), [])
    ensures !FiltersHtml(env) ==> Validate(env, Str(s), t, fid) == Ok(Str(s), [])
  {
  }

  /** `upload` keeps an attachment id and sends anything else through
      `esc_url_raw`; it never reports an error. */
  lemma {:induction false} UploadRule(env: Env, s: string, fid: string)
    requires !FalsyString(s) && !FalsyString(fid)
    ensures env.isIntLiteral(s) ==> Validate(env, Str(s), "upload", fid) == Ok(Str(s), [])
    ensures !env.isIntLiteral(s) ==> Validate(env, Str(s), "upload", fid) == Ok(Str(env.escUrlRaw(s)), [])
  {
  }

  /** What `wp_kses_post` makes of an array is left alone by a second
      pass: an array result maps to itself, a string result filters to
      itself. */
  predicate KsesSettles(env: Env, r: Value) {
    && (r.Arr? ==> env.ksesPostArray(r.entries) == r)
    && (r.Str? ==> env.ksesPost(r.s) == r.s)
  }

  /** The text types never raise, and when `wp_kses_post` is idempotent on
      strings and on arrays, re-validating their result changes nothing. */
  lemma {:induction false} TextIdempotent(env: Env, v: Value, t: string, fid: string)
    requires IsTextType(t)
    requires forall s :: env.ksesPost(env.ksesPost(s)) == env.ksesPost(s)
    requires forall es :: KsesSettles(env, env.ksesPostArray(es))
    ensures var o := Validate(env, v, t, fid);
      && o.Ok?
      && Validate(env, o.val, t, fid) == Ok(o.val, [])
  {
    var o := Validate(env, v, t, fid);
    if !Empty(v) && !FalsyString(fid) && FiltersHtml(env) {
      if v.Arr? {
        assert o.val == env.ksesPostArray(v.entries);
        assert KsesSettles(env, o.val);
      } else {
        assert o.val == Str(env.ksesPost(ScalarText(v)));
      }
    }
  }

  /** `upload` raises exactly on a non-empty array (`esc_url_raw` starts
      with `ltrim`), and when `esc_url_raw` is idempotent, re-validating its
      result changes nothing. */
  lemma {:induction false} UploadIdempotent(env: Env, v: Value, fid: string)
    requires forall s :: env.escUrlRaw(env.escUrlRaw(s)) == env.escUrlRaw(s)
    ensures var o := Validate(env, v, "upload", fid);
      && (o.Fault? ==> v.Arr? && !Empty(v) && !FalsyString(fid))
      && (v.Arr? && !Empty(v) && !FalsyString(fid) ==> o.Fault?)
      && (o.Ok? ==> Validate(env, o.val, "upload", fid) == Ok(o.val, []))
  {
    var o := Validate(env, v, "upload", fid);
    if o.Ok? && !Empty(v) && !FalsyString(fid) && !(v.Str? && env.isIntLiteral(v.s)) {
      var u := env.escUrlRaw(ScalarText(v));
      assert o.val == Str(u);
      if !Empty(o.val) && !env.isIntLiteral(u) {
        UploadRule(env, u, fid);
      }
    }
  }

  lemma {:induction false} GalleryDispatch(env: Env, v: Value, fid: string)
    requires !Empty(v) && !FalsyString(fid)
    ensures Validate(env, v, "gallery", fid) == Gallery(v)
  {
  }

  /** `gallery` is `trim`. */
  lemma {:induction false} GalleryRule(env: Env, s: string, fid: string)
    requires !FalsyString(s) && !FalsyString(fid)
    ensures Validate(env, Str(s), "gallery", fid) == Ok(Str(Trim(s)), [])
  {
    GalleryDispatch(env, Str(s), fid);
  }

  /** Re-validating a `gallery` result changes nothing. */
  lemma {:induction false} GalleryIdempotent(env: Env, v: Value, fid: string)
    ensures var o := Validate(env, v, "gallery", fid);
      o.Ok? ==> Validate(env, o.val, "gallery", fid) == Ok(o.val, [])
  {
    var o := Validate(env, v, "gallery", fid);
    if o.Ok? && !Empty(v) && !FalsyString(fid) {
      GalleryDispatch(env, v, fid);
      var r := Trim(ScalarText(v));
      assert o.val == Str(r);
      TrimIdempotent(ScalarText(v));
      if !Empty(o.val) {
        GalleryRule(env, r, fid);
      }
    }
  }

  lemma {:induction false} MeasurementDispatch(env: Env, v: Value, fid: string)
    requires !Empty(v) && !FalsyString(fid)
    ensures Validate(env, v, "measurement", fid) == Measurement(env, v)
  {
  }

  /** `measurement` on an array: the number (index 0) is replaced by its
      `sanitize_text_field` form ('' when the number is itself an array),
      and the whole value becomes '' exactly when that form is empty and the
      unit (index 1) is empty. */
  lemma {:induction false} MeasurementRule(env: Env, es: seq<Entry>, fid: string)
    requires |es| > 0 && !FalsyString(fid)
    ensures var first := Get(es, Idx(0));
      var num := if first.Arr? then "" else env.sanitizeTextField(ScalarText(first));
      var o := Validate(env, Arr(es), "measurement", fid);
      && o.Ok? && o.errors == []
      && (o.val == Str("") <==> num == "" && Empty(Get(es, Idx(1))))
      && (o.val != Str("") ==>
            && o.val.Arr?
            && Get(o.val.entries, Idx(0)) == Str(num)
            && forall k :: k != Idx(0) ==> Get(o.val.entries, k) == Get(es, k))
  {
    MeasurementDispatch(env, Arr(es), fid);
    var num := SanitizeText(env, Get(es, Idx(0)));
    var es1 := Put(es, Idx(0), Str(num));
    assert Get(es1, Idx(1)) == Get(es, Idx(1));
    assert Measurement(env, Arr(es)) == Ok(if num == "" && Empty(Get(es, Idx(1))) then Str("") else Arr(es1), []);
  }

  /** `measurement` on a string: only its first character is rewritten, and
      an empty sanitised first character is a PHP Error. */
  lemma {:induction false} MeasurementOnString(env: Env, s: string, fid: string)
    requires !FalsyString(s) && !FalsyString(fid)
    ensures var t := env.sanitizeTextField(s[..1]);
      var o := Validate(env, Str(s), "measurement", fid);
      && (t == "" <==> o.Fault?)
      && (t != "" ==> o == Ok(Str([t[0]] + s[1..]), []))
  {
    MeasurementDispatch(env, Str(s), fid);
  }

  /** Any type without a rule passes the value through. */
  lemma {:induction false} UnknownTypePassesThrough(env: Env, v: Value, t: string, fid: string)
    requires !KnownType(t)
    ensures Validate(env, v, t, fid) == Ok(v, [])
  {
  }

  /** A truthy string given to an array rule: the loops of `border`,
      `dimension` and `spacing` skip it and `typography` finds no
      `font-color`, so it passes unchanged. */
  lemma {:induction false} StringPassesArrayRules(env: Env, s: string, t: string, fid: string)
    requires !FalsyString(s) && !FalsyString(fid)
    requires t in {"border", "dimension", "spacing", "typography"}
    ensures Validate(env, Str(s), t, fid) == Ok(Str(s), [])
  {
  }

  /** `link-color` and `social-links` find no value in a string and return ''. */
  lemma {:induction false} StringBlankedByValueRules(env: Env, s: string, t: string, fid: string)
    requires !FalsyString(s) && !FalsyString(fid)
    requires t in {"link-color", "social-links"}
    ensures Validate(env, Str(s), t, fid) == Ok(Str(""), [])
  {
  }

  /** `background`, `box-shadow` and `google-fonts` write or unset a string
      offset, which raises. */
  lemma {:induction false} StringFaultsOffsetRules(env: Env, s: string, t: string, fid: string)
    requires !FalsyString(s) && !FalsyString(fid)
    requires t in {"background", "box-shadow", "google-fonts"}
    ensures Validate(env, Str(s), t, fid).Fault?
  {
  }
}
