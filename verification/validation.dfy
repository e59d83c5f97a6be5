/** `ot_validate_setting`: the type-dispatched sanitiser. Given a value, a
    type tag and a field id it returns the sanitised value and the errors it
    reported, or `Fault` where PHP 8 would raise an Error.

    The WordPress and PHP primitives the rule calls are not reimplemented:
    they are the fields of `Env`. The `ot_validate_setting` and
    `ot_after_validate_setting` filters are the identity, and the WPML
    block never runs because every caller here passes no WPML id. */
module Validation {

  import opened Opt
  import opened PhpValue
  import opened PhpString
  import opened ColorSyntax
  import opened EntryPass

  /** The host primitives the sanitiser calls, as given functions. */
  datatype Env = Env(
    canUnfilteredHtml: bool,            // current_user_can( 'unfiltered_html' )
    allowUnfilteredHtml: bool,          // OT_ALLOW_UNFILTERED_HTML
    ksesPost: string -> string,         // wp_kses_post
    ksesPostArray: seq<Entry> -> Value, // wp_kses_post given an array
    sanitizeTextField: string -> string, // sanitize_text_field
    escUrlRaw: string -> string,        // esc_url_raw
    isNumeric: string -> bool,          // is_numeric
    isIntLiteral: string -> bool)       // filter_var( $s, FILTER_VALIDATE_INT ) !== false

  type Outcome = Checked<Value>

  /** Markup is filtered unless the user may post unfiltered HTML or the
      site-wide switch allows it. */
  predicate FiltersHtml(env: Env) {
    !env.canUnfilteredHtml && !env.allowUnfilteredHtml
  }

  /** `is_numeric`: false for null and arrays. */
  predicate Numeric(env: Env, v: Value) {
    v.Str? && env.isNumeric(v.s)
  }

  predicate IsTextType(t: string) {
    t == "css" || t == "javascript" || t == "text" || t == "textarea" || t == "textarea-simple"
  }

  /** Every type with a rule of its own; any other type passes through. */
  predicate KnownType(t: string) {
    || t == "background" || t == "border" || t == "box-shadow" || t == "colorpicker"
    || t == "colorpicker-opacity" || IsTextType(t) || t == "dimension" || t == "google-fonts"
    || t == "link-color" || t == "measurement" || t == "spacing" || t == "typography"
    || t == "upload" || t == "gallery" || t == "social-links"
  }

  /** The rules re-enter the sanitiser only with `colorpicker`, `upload` or
      `text`, which never re-enter, and `colorpicker-opacity` re-enters only
      with `colorpicker`: this rank drops on every re-entry. */
  function Rank(t: string): nat {
    if t == "colorpicker" || t == "text" || t == "upload" then 0
    else if t == "colorpicker-opacity" then 1
    else 2
  }

  const BackgroundColor := Name("background-color")
  const BackgroundImage := Name("background-image")
  const Width := Name("width")
  const Color := Name("color")
  const Inset := Name("inset")
  const OffsetX := Name("offset-x")
  const OffsetY := Name("offset-y")
  const BlurRadius := Name("blur-radius")
  const SpreadRadius := Name("spread-radius")
  const Unit := Name("unit")
  const KeyTemplate := Name("%key%")
  const FontColor := Name("font-color")

  // ------------------------------------------------------------ leaf rules

  /** `colorpicker`: keep a value either expression accepts, otherwise '' and
      `invalid_hex`. `preg_match` on an array raises a TypeError. */
  function Colorpicker(input: Value, fid: string): Outcome {
    if input.Arr? then Fault
    else if ColorOk(ScalarText(input)) then Ok(input, [])
    else Ok(Str(""), [Error("invalid_hex", fid)])
  }

  /** `css`, `javascript`, `text`, `textarea`, `textarea-simple`. */
  function TextLike(env: Env, input: Value): Outcome {
    if !FiltersHtml(env) then Ok(input, [])
    else if input.Arr? then Ok(env.ksesPostArray(input.entries), [])
    else Ok(Str(env.ksesPost(ScalarText(input))), [])
  }

  /** `sanitize_text_field`: WordPress answers '' for an array without
      looking into it, and sanitises the text of anything else. */
  function SanitizeText(env: Env, v: Value): string {
    if v.Arr? then "" else env.sanitizeTextField(ScalarText(v))
  }

  /** `upload`: an integer literal (an attachment id) is kept, anything else
      goes through `esc_url_raw`, whose opening `ltrim` raises a TypeError on
      an array. */
  function Upload(env: Env, input: Value): Outcome {
    if input.Arr? then Fault
    else if input.Str? && env.isIntLiteral(input.s) then Ok(input, [])
    else Ok(Str(env.escUrlRaw(ScalarText(input))), [])
  }

  /** `gallery`: `trim`, which raises a TypeError on an array. */
  function Gallery(input: Value): Outcome {
    if input.Arr? then Fault else Ok(Str(Trim(ScalarText(input))), [])
  }

  // ------------------------------------------------------- composite rules

  /** `background`: colour and image re-validated in place, then '' when no
      value of the array is truthy. */
  function Background(es: seq<Entry>, color: Value -> Outcome, upload: Value -> Outcome): Outcome {
    match RevalidateAll(Ok(es, []), [Step(BackgroundColor, color), Step(BackgroundImage, upload)])
    case Fault => Fault
    case Ok(es2, errs) => Ok(if AnyTruthy(es2) then Arr(es2) else Str(""), errs)
  }

  /** One iteration of the `border` loop, on the original `$value`. */
  function BorderEntry(env: Env, e: Entry, color: Value -> Outcome, fid: string): Checked<Option<Value>> {
    var widthBad := e.key == Width && !Empty(e.val) && !Numeric(env, e.val);
    var colored := if e.key == Color && !Empty(e.val) then color(e.val) else Ok(e.val, []);
    match colored
    case Fault => Fault
    case Ok(c, cerrs) =>
      match ZeroLength(e.val)
      case None => Fault
      case Some(drop) =>
        var errs := (if widthBad then [Error("invalid_border_width", fid)] else []) + cerrs;
        Ok(if drop then None else Some(if widthBad then Str("0") else c), errs)
  }

  function Border(env: Env, es: seq<Entry>, color: Value -> Outcome, fid: string): Outcome {
    match EachEntry(es, e => BorderEntry(env, e, color, fid))
    case Fault => Fault
    case Ok(es1, errs) => Ok(Collapse(es1), errs)
  }

  /** The `unset` loop of `box-shadow`: drop zero-length values. */
  function DropZeroLength(e: Entry): Checked<Option<Value>> {
    match ZeroLength(e.val)
    case None => Fault
    case Some(drop) => Ok(if drop then None else Some(e.val), [])
  }

  /** The re-validations of `box-shadow`, in source order. */
  function ShadowSteps(text: Value -> Outcome, color: Value -> Outcome): seq<Step> {
    [Step(OffsetX, text), Step(OffsetY, text), Step(BlurRadius, text), Step(SpreadRadius, text), Step(Color, color)]
  }

  /** The assignments of `box-shadow`: `inset` normalised, offsets and
      radii through `text`, `color` through `colorpicker`. */
  function BoxShadowPrepare(es: seq<Entry>, text: Value -> Outcome, color: Value -> Outcome): Checked<seq<Entry>> {
    var withInset := Put(es, Inset, if IsSet(es, Inset) then Str("inset") else Str(""));
    RevalidateAll(Ok(withInset, []), ShadowSteps(text, color))
  }

  /** `box-shadow`: the assignments, then zero-length values dropped. */
  function BoxShadow(es: seq<Entry>, text: Value -> Outcome, color: Value -> Outcome): Outcome {
    match BoxShadowPrepare(es, text, color)
    case Fault => Fault
    case Ok(es6, errs) =>
      match EachEntry(es6, DropZeroLength)
      case Fault => Fault
      case Ok(es7, _) => Ok(Collapse(es7), errs)
  }

  /** A field of `dimension` / `spacing` that must be numeric and is not. */
  predicate BadNumber(env: Env, e: Entry) {
    !Empty(e.val) && !Numeric(env, e.val) && e.key != Unit
  }

  /** One iteration of the `dimension` / `spacing` loops. The errors are
      collected during the loop and reported after it, in the same order. */
  function NumberEntry(env: Env, e: Entry, codePrefix: string, fid: string): Checked<Option<Value>> {
    var bad := BadNumber(env, e);
    match ZeroLength(e.val)
    case None => Fault
    case Some(drop) =>
      Ok(if drop then None else Some(if bad then Str("0") else e.val),
         if bad then [Error(codePrefix + KeyText(e.key), fid)] else [])
  }

  /** `dimension` (codes `invalid_dimension_<key>`) and `spacing`
      (codes `invalid_spacing_<key>`). */
  function NumberFields(env: Env, es: seq<Entry>, codePrefix: string, fid: string): Outcome {
    match EachEntry(es, e => NumberEntry(env, e, codePrefix, fid))
    case Fault => Fault
    case Ok(es1, errs) => Ok(Collapse(es1), errs)
  }

  /** `google-fonts`: drop the `%key%` template row, renumber the rest. */
  function GoogleFonts(es: seq<Entry>): Outcome {
    Ok(Collapse(Reindex(Unset(es, KeyTemplate))), [])
  }

  /** `$a . '-' . $key`: the field id a `link-color` sub-colour reports under. */
  function SubFieldId(fid: string, k: Key): string {
    fid + "-" + KeyText(k)
  }

  function LinkColorEntry(e: Entry, color: (Value, string) -> Outcome, fid: string): Checked<Option<Value>> {
    if Empty(e.val) then Ok(Some(e.val), [])
    else
      match color(e.val, SubFieldId(fid, e.key))
      case Fault => Fault
      case Ok(c, errs) => Ok(Some(c), errs)
  }

  /** `link-color`: each non-empty value re-validated as a colour under its
      own sub-field id; '' when no value was non-empty to begin with. */
  function LinkColor(es: seq<Entry>, color: (Value, string) -> Outcome, fid: string): Outcome {
    match EachEntry(es, e => LinkColorEntry(e, color, fid))
    case Fault => Fault
    case Ok(es1, errs) => Ok(if AnyTruthy(es) then Arr(es1) else Str(""), errs)
  }

  /** `measurement`: `$input[0] = sanitize_text_field( $input[0] )`, then ''
      when the number is empty and the unit is empty. On a string, `$input[0]`
      is its first character and the assignment overwrites that character
      with the first character of the result (PHP raises an Error when the
      result is empty). */
  function Measurement(env: Env, input: Value): Outcome {
    match input
    case Arr(es) =>
      var t := SanitizeText(env, Get(es, Idx(0)));
      var es1 := Put(es, Idx(0), Str(t));
      Ok(if t == "" && Empty(Get(es1, Idx(1))) then Str("") else Arr(es1), [])
    case Str(s) =>
      if |s| == 0 then Ok(input, [])
      else
        var t := env.sanitizeTextField(s[..1]);
        if t == "" then Fault else Ok(Str([t[0]] + s[1..]), [])
    case Null => Ok(input, [])
  }

  /** `typography` once `font-color` is set: re-validate it, then '' when no
      value of the array is truthy. */
  function Typography(es: seq<Entry>, color: Value -> Outcome): Outcome {
    match RevalidateAll(Ok(es, []), [Step(FontColor, color)])
    case Fault => Fault
    case Ok(es1, errs) => Ok(if AnyTruthy(es1) then Arr(es1) else Str(""), errs)
  }

  function SocialItem(env: Env, item: Entry): Checked<Option<Value>> {
    if Empty(item.val) then Ok(Some(item.val), [])
    else Ok(Some(Str(SanitizeText(env, item.val))), [])
  }

  function SocialEntry(env: Env, e: Entry): Checked<Option<Value>> {
    if !Empty(e.val) && e.val.Arr? then
      match EachEntry(e.val.entries, item => SocialItem(env, item))
      case Fault => Fault
      case Ok(items, _) => Ok(Some(Arr(items)), [])
    else Ok(Some(e.val), [])
  }

  /** Some profile of the `social-links` array holds a non-empty field. */
  predicate HasSocialValue(es: seq<Entry>) {
    exists i :: 0 <= i < |es| && es[i].val.Arr? && AnyTruthy(es[i].val.entries)
  }

  /** `social-links`: every non-empty field of every profile through
      `sanitize_text_field`; '' when there was none. A string input casts to
      a one-element array holding no profile, so it becomes ''. */
  function SocialLinks(env: Env, input: Value): Outcome {
    match input
    case Arr(es) =>
      (match EachEntry(es, e => SocialEntry(env, e))
       case Fault => Fault
       case Ok(es1, _) => Ok(if HasSocialValue(es) then Arr(es1) else Str(""), []))
    case _ => Ok(Str(""), [])
  }

  // -------------------------------------------------------------- dispatch

  /** The sanitiser. The early exit returns a falsy value, or any value with
      a falsy type or field id, untouched. Rules that write string offsets
      into a string (`background`, `box-shadow`, `google-fonts`) raise;
      rules that only loop over the input leave a string alone. */
  function Validate(env: Env, input: Value, t: string, fid: string): (o: Outcome)
    decreases Rank(t)
    ensures Empty(input) || FalsyString(t) || FalsyString(fid) ==> o == Ok(input, [])
    ensures !KnownType(t) ==> o == Ok(input, [])
  {
    if Empty(input) || FalsyString(t) || FalsyString(fid) then Ok(input, [])
    else if t == "background" then
      if input.Arr? then
        Background(input.entries, v => Validate(env, v, "colorpicker", fid), v => Validate(env, v, "upload", fid))
      else Fault
    else if t == "border" then
      if input.Arr? then Border(env, input.entries, v => Validate(env, v, "colorpicker", fid), fid)
      else Ok(input, [])
    else if t == "box-shadow" then
      if input.Arr? then
        BoxShadow(input.entries, v => Validate(env, v, "text", fid), v => Validate(env, v, "colorpicker", fid))
      else Fault
    else if t == "colorpicker" then Colorpicker(input, fid)
    else if t == "colorpicker-opacity" then
      Validate(env, if input.Arr? then Str("") else input, "colorpicker", fid)
    else if IsTextType(t) then TextLike(env, input)
    else if t == "dimension" then
      if input.Arr? then NumberFields(env, input.entries, "invalid_dimension_", fid) else Ok(input, [])
    else if t == "google-fonts" then
      if input.Arr? then GoogleFonts(input.entries) else Fault
    else if t == "link-color" then
      if input.Arr? then LinkColor(input.entries, (v, f) => Validate(env, v, "colorpicker", f), fid)
      else Ok(Str(""), [])
    else if t == "measurement" then Measurement(env, input)
    else if t == "spacing" then
      if input.Arr? then NumberFields(env, input.entries, "invalid_spacing_", fid) else Ok(input, [])
    else if t == "typography" && input.Arr? && IsSet(input.entries, FontColor) then
      Typography(input.entries, v => Validate(env, v, "colorpicker", fid))
    else if t == "upload" then Upload(env, input)
    else if t == "gallery" then Gallery(input)
    else if t == "social-links" then SocialLinks(env, input)
    else Ok(input, [])
  }
}
