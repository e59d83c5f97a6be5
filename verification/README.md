# Option Tree settings: sanitiser and restore, in Dafny

This project models the core of the WordPress plugin *Option Tree
Settings*. When the theme changes, the plugin saves the OptionTree options
of the outgoing theme. When a theme is activated, it restores that
theme's saved options. Each restored value first goes through
`ot_stripslashes` and then `ot_validate_setting`, the sanitiser of the
OptionTree framework.

The model covers:

- `ot_validate_setting` with every type branch: `background`, `border`,
  `box-shadow`, `colorpicker`, `colorpicker-opacity`, the text types,
  `dimension`, `google-fonts`, `link-color`, `measurement`, `spacing`,
  `typography`, `upload`, `gallery` and `social-links`;
- `ot_stripslashes`;
- the loop of `z_after_activation` that rewrites the restored options
  setting by setting.

The modules:

- `PhpValue` (`php_value.dfy`): PHP values as the option store holds them.
  These are null, strings and ordered arrays with integer or string keys.
  The module gives `$a[$k]` reads, assignment (update in place, or append),
  `unset`, `empty`, the `strlen` test, `array_values`, and "some value is
  truthy".
- `PhpString` (`php_string.dfy`): `trim` with its default character list,
  `stripslashes`, and `addslashes`, which `stripslashes` undoes.
- `ColorSyntax` (`color_syntax.dfy`): the two colour expressions of the
  colour picker. The rgba expression is matched by a greedy scanner, which
  is proved to accept exactly the strings the expression matches.
- `EntryPass` (`entry_pass.dfy`): the two loop shapes that the composite
  rules share. One is a `foreach` that may rewrite or unset each key. The
  other is a series of in-place re-validations
  `$input[k] = ot_validate_setting(...)`.
- `Validation` (`validation.dfy`): `ot_validate_setting` itself.
  - The WordPress primitives it calls are fields of an `Env` record:
    `wp_kses_post` (on a string, and separately on an array),
    `sanitize_text_field` (WordPress answers '' for an array; the field
    gives the result for any other value), `esc_url_raw`, `is_numeric`,
    `filter_var(..., FILTER_VALIDATE_INT)`, the `unfiltered_html`
    capability and `OT_ALLOW_UNFILTERED_HTML`.
  - Each call returns the sanitised value together with the settings
    errors it reports, or `Fault` where PHP 8 raises an Error.
- `LeafProps` and `CompositeProps`: what each type rule does, stated
  against the model and proved.
- `Restore` (`restore.dfy`): `ot_stripslashes` and the restore loop over
  the settings schema.

Three behaviours of the code differ from what a reader of the rules would
expect. The model follows the code in each case:

- The rgba expression has no `$` anchor, so any string that merely
  *begins* with an rgba colour is kept.
- One would expect that re-validating a sanitised value changes nothing
  further. That holds for `colorpicker` and `gallery`
  (`LeafProps.ColorpickerIdempotent`, `LeafProps.GalleryIdempotent`), and
  for the text types and `upload` whenever the WordPress filter they call
  is itself idempotent (`LeafProps.TextIdempotent`,
  `LeafProps.UploadIdempotent`). It fails for `link-color` and `border`: a
  bad colour is blanked to '' on the first pass, and only the second pass
  sees the blank as empty.
  `CompositeProps.LinkColorNotIdempotent` and
  `CompositeProps.BorderNotIdempotent` exhibit inputs that show this. It
  also fails for `social-links`, whatever the host functions do: a field
  that is itself an array counts as a value, is sanitised to '', and on
  the second pass no link has a value left, so the whole value becomes ''
  (`CompositeProps.SocialLinksNotIdempotent`). Idempotence was not
  examined for `dimension`, `spacing`, `box-shadow`, `google-fonts`,
  `background`, `typography` and `measurement`.
- The hex expression ends in `$`, which in PCRE also matches before a final
  newline. So `"#fff\n"` is accepted.

## Model

| member | source | states |
|---|---|---|
| PhpValue.ZeroLength | option-tree-settings/option-tree-settings.php:200 | `empty($v) && strlen($v) == 0` holds exactly for null and ''; `strlen` raises only on the empty array, the one array that passes `empty` |
| PhpValue.Put | option-tree-settings/option-tree-settings.php:142-143 | array assignment stores the value under the key, changes no other key, keeps key order (a new key is appended) and keeps keys unique |
| PhpValue.Unset | option-tree-settings/option-tree-settings.php:172 | `unset` removes the key and leaves every other key and its value as it was |
| PhpValue.TruthyByKey | option-tree-settings/option-tree-settings.php:146-150 | the `$has_value` loop finds a truthy value exactly when some key holds one |
| PhpValue.ReindexLookup | option-tree-settings/option-tree-settings.php:256 | `array_values` yields a list: its keys are exactly the positions 0..n-1, each once, and position i holds the i-th value of the input |
| PhpString.Trim | option-tree-settings/option-tree-settings.php:328 | `trim` returns the piece of its input that follows the leading trim characters, with only trim characters after it, and it neither starts nor ends with one |
| PhpString.TrimIdempotent | option-tree-settings/option-tree-settings.php:328 | trimming a trimmed string changes nothing |
| PhpString.StripSlashesUndoesAddSlashes | option-tree-settings/option-tree-settings.php:85 | `stripslashes` undoes `addslashes` on every string, including NUL and backslash |
| ColorSyntax.HexColorIsPattern | option-tree-settings/option-tree-settings.php:211 | the hex test accepts exactly `#` plus 3 or 6 hex digits in either case, optionally followed by one final newline |
| ColorSyntax.ScanDecides | option-tree-settings/option-tree-settings.php:211 | for a token pattern where no greedy run can swallow what the next token needs, the greedy scanner succeeds exactly when some prefix of the input splits into one part per token |
| ColorSyntax.RgbaPrefixIsPattern | option-tree-settings/option-tree-settings.php:211 | the rgba test accepts exactly the strings that begin with a match of the rgba expression, case-insensitively and with nothing required after `)` |
| ColorSyntax.ColorOkIsRegex | option-tree-settings/option-tree-settings.php:211 | the colour picker's test passes exactly when one of the two expressions matches |
| Validation.Validate | option-tree-settings/option-tree-settings.php:115-119 | a falsy value, type or field id is returned untouched with no error, and so is a value of a type without a rule |
| LeafProps.EarlyExit | option-tree-settings/option-tree-settings.php:117-119 | null, '', '0', the empty array, or a falsy type or field id: the value comes back unchanged and nothing is reported |
| LeafProps.EmptyInEmptyOut | option-tree-settings/option-tree-settings.php:117-119 | '', '0' and the empty array pass through every type unchanged |
| LeafProps.ColorpickerRule | option-tree-settings/option-tree-settings.php:209-214 | a string either expression matches is kept; any other becomes '' with one `invalid_hex` error for the field |
| LeafProps.ColorpickerOnArray | option-tree-settings/option-tree-settings.php:211 | a non-empty array raises (`preg_match` on an array) |
| LeafProps.ColorpickerIdempotent | option-tree-settings/option-tree-settings.php:209-214 | re-validating a colour picker result gives it back with no error |
| LeafProps.ColorpickerOpacityRule | option-tree-settings/option-tree-settings.php:215-222 | an array becomes '' with no error; a scalar is judged as a colour picker value |
| LeafProps.TextRule | option-tree-settings/option-tree-settings.php:223-226 | the five text types pass the string through `wp_kses_post` exactly when the user lacks `unfiltered_html` and the site switch is off, and keep it otherwise |
| LeafProps.TextIdempotent | option-tree-settings/option-tree-settings.php:223-226 | the text types never raise, on strings or arrays; when `wp_kses_post` is idempotent on strings and on arrays, re-validating their result gives it back with no error |
| LeafProps.UploadRule | option-tree-settings/option-tree-settings.php:323-326 | an integer literal is kept; any other string goes through `esc_url_raw` |
| LeafProps.UploadIdempotent | option-tree-settings/option-tree-settings.php:323-326 | `upload` raises exactly on a non-empty array (`esc_url_raw` starts with `ltrim`); when `esc_url_raw` is idempotent, re-validating its result gives it back with no error |
| LeafProps.GalleryRule | option-tree-settings/option-tree-settings.php:327-328 | `gallery` is `trim`, with no error |
| LeafProps.GalleryIdempotent | option-tree-settings/option-tree-settings.php:327-328 | re-validating a `gallery` result gives it back with no error |
| LeafProps.MeasurementRule | option-tree-settings/option-tree-settings.php:278-284 | on an array, index 0 is replaced by its sanitised text ('' when index 0 is itself an array) and every other key is kept; it never raises or reports; the result is '' exactly when that text is empty and index 1 is empty |
| LeafProps.MeasurementOnString | option-tree-settings/option-tree-settings.php:279 | on a string, only the first character is replaced, by the first character of its sanitised form; an empty sanitised form raises |
| LeafProps.UnknownTypePassesThrough | option-tree-settings/option-tree-settings.php:347-351 | a type without a rule returns the value unchanged |
| LeafProps.StringPassesArrayRules | option-tree-settings/option-tree-settings.php:156-178 | `border`, `dimension`, `spacing` and `typography` leave a non-empty string alone: their loops find no keys and `font-color` is not set |
| LeafProps.StringBlankedByValueRules | option-tree-settings/option-tree-settings.php:263-277 | `link-color` and `social-links` turn a non-empty string into '', because they find no value in it |
| LeafProps.StringFaultsOffsetRules | option-tree-settings/option-tree-settings.php:141-143 | `background`, `box-shadow` and `google-fonts` raise on a non-empty string, because they write or unset a string offset |
| CompositeProps.NumberFieldsRule | option-tree-settings/option-tree-settings.php:227-250 | `dimension` and `spacing` raise exactly when some value is an empty array; they report one error per non-numeric non-`unit` key, in key order; null and '' keys are dropped and every other key stays, bad keys become '0', the rest keep their values; the result is '' exactly when every value was null or '' |
| CompositeProps.BorderFaults | option-tree-settings/option-tree-settings.php:156-178 | `border` raises exactly when some value is an empty array or `color` holds a non-empty array |
| CompositeProps.BorderErrors | option-tree-settings/option-tree-settings.php:158-168 | `border` reports `invalid_border_width` for a truthy non-numeric width and `invalid_hex` for a colour neither expression accepts, and nothing else |
| CompositeProps.BorderResult | option-tree-settings/option-tree-settings.php:156-178 | null and '' keys are dropped and every other key stays; a bad width becomes '0'; the colour is re-validated; the other keys are kept; the result is '' exactly when every value was null or '' |
| CompositeProps.BoxShadowFaults | option-tree-settings/option-tree-settings.php:179-208 | `box-shadow` raises exactly when one of its assignments raises or leaves an empty array |
| CompositeProps.BoxShadowErrors | option-tree-settings/option-tree-settings.php:179-208 | `box-shadow` reports only the colour's error |
| CompositeProps.BoxShadowResult | option-tree-settings/option-tree-settings.php:179-208 | `inset` is normalised; the offsets and radii go through `text` and `color` through `colorpicker`; values that end up null or '' are removed; no null, '' or empty array remains; the result is '' exactly when every assignment leaves null or '' |
| CompositeProps.BoxShadowLoopFault | option-tree-settings/option-tree-settings.php:179-203 | for any text and colour rules, the assignments plus the unset loop raise exactly when some key's assignment raises or is an empty array |
| CompositeProps.BoxShadowLoopResult | option-tree-settings/option-tree-settings.php:179-208 | for any text and colour rules, each key holds its assignment unless that is null or '' |
| CompositeProps.GoogleFontsRule | option-tree-settings/option-tree-settings.php:251-262 | `%key%` is removed and the rest is reindexed 0..n-1 with the values in order; the result is '' exactly when `%key%` was the only key; there are no errors |
| CompositeProps.BackgroundRule | option-tree-settings/option-tree-settings.php:141-155 | `background` raises exactly when the colour or image re-validation raises; it reports the colour's errors; both keys hold their results and every other key is unchanged; the result is '' exactly when no value is truthy afterwards |
| CompositeProps.TypographyRule | option-tree-settings/option-tree-settings.php:308-322 | without `font-color` the value is unchanged; with it, the colour is re-validated and the result is '' exactly when nothing is truthy afterwards |
| CompositeProps.ColorpickerErrors | option-tree-settings/option-tree-settings.php:209-214 | a truthy value raises exactly when it is an array; otherwise there is one `invalid_hex` error exactly when it is a bad colour |
| CompositeProps.LinkColorFaults | option-tree-settings/option-tree-settings.php:263-277 | `link-color` raises exactly when some value is a non-empty array |
| CompositeProps.LinkColorErrors | option-tree-settings/option-tree-settings.php:263-277 | `link-color` reports one `invalid_hex` per bad truthy colour, in key order, under the id `field-key` |
| CompositeProps.LinkColorResult | option-tree-settings/option-tree-settings.php:263-277 | the result is '' exactly when no value was truthy; otherwise the keys are kept, bad colours become '' and the others are unchanged |
| CompositeProps.SocialLinksNeverRaises | option-tree-settings/option-tree-settings.php:329-346 | `social-links` never raises, whatever it is given: a truthy item that is itself an array is sanitised to '' |
| CompositeProps.SocialLinksResult | option-tree-settings/option-tree-settings.php:329-346 | every link keeps its key; truthy items of each link are sanitised (an array item becomes '') under their own keys and everything else is kept; the result is '' exactly when no link has a truthy item; there are no errors |
| CompositeProps.LinkColorNotIdempotent | option-tree-settings/option-tree-settings.php:263-277 | some `link-color` result changes when it is validated again |
| CompositeProps.BorderNotIdempotent | option-tree-settings/option-tree-settings.php:156-178 | some `border` result changes when it is validated again |
| CompositeProps.SocialLinksNotIdempotent | option-tree-settings/option-tree-settings.php:329-346 | for every choice of host functions, some `social-links` result changes when it is validated again |
| Restore.StripSlashesDeep | option-tree-settings/option-tree-settings.php:79-93 | `ot_stripslashes` keeps arrays as arrays with the same top-level keys in the same order and turns a scalar into a string no longer than its trimmed text; the full shape and the leaf values are in the three rows below |
| Restore.StripSlashesShape | option-tree-settings/option-tree-settings.php:79-93 | `ot_stripslashes` keeps the shape at every depth: each array stays an array with the same keys in the same order, each scalar stays a scalar |
| Restore.StripSlashesAt | option-tree-settings/option-tree-settings.php:79-93 | a path of keys reaches something in the result exactly when it reaches something in the input, and what it reaches is the input there passed through `ot_stripslashes` |
| Restore.StripSlashesLeaf | option-tree-settings/option-tree-settings.php:86-90 | the scalar a path reaches in the result is the trimmed, un-slashed text of the scalar at that path in the input |
| Restore.StripUndoesAddDeep | option-tree-settings/option-tree-settings.php:79-93 | on a value whose strings have no surrounding trim characters, `ot_stripslashes` undoes `addslashes` at every depth |
| Restore.RestoreStep | option-tree-settings/option-tree-settings.php:53-57 | one setting touches only its own key: when it does not raise, the options keep exactly their keys in order, keep them unique, and every other key keeps its value |
| Restore.AfterActivation | option-tree-settings/option-tree-settings.php:50-63 | nothing is saved unless the export is an array; without a settings array the export is saved as it is |
| Restore.RestoreKeys | option-tree-settings/option-tree-settings.php:53-58 | the loop keeps the options' keys, in order, and their uniqueness |
| Restore.RestoreUnnamed | option-tree-settings/option-tree-settings.php:53-58 | a key that no setting names is left as it was |
| Restore.RestoreFaults | option-tree-settings/option-tree-settings.php:53-58 | with distinct ids, the loop raises exactly when some setting's re-validation of the stored value raises |
| Restore.RestoreSettled | option-tree-settings/option-tree-settings.php:53-58 | with distinct ids, each named key ends up holding its own re-validation of the stored value |
| Restore.RestoreErrors | option-tree-settings/option-tree-settings.php:53-58 | with distinct ids, the errors are each setting's errors in schema order |
| Restore.AfterActivationRule | option-tree-settings/option-tree-settings.php:50-63 | restoring an array export raises exactly when some setting's validation raises; otherwise the saved array has the export's keys in order, unnamed keys are untouched, and each named set key holds its value trimmed, un-slashed and re-validated by its own type |

## Left out

- The export side of the hook (lines 21-35): deleting and writing the `.cnf` file, `get_option` and `base64_encode(serialize(...))`. This is file I/O.
- Reading the import file (lines 37-47): `file_exists`, `file_get_contents`, `base64_decode` and `unserialize`. The model takes the unserialised value as a parameter.
- `get_option('option_tree_settings')` and `update_option('option_tree', ...)` (lines 47 and 62). The settings list is a parameter, and the result is the array that would be saved.
- The `ot_validate_setting` and `ot_after_validate_setting` filters (lines 121 and 349) are modelled as the identity, because no callback is registered in this code.
- WPML string registration (lines 123-139) is not modelled. It only calls foreign functions, never changes the value, and no caller here passes a WPML id.
- `wp_kses_post`, `sanitize_text_field`, `esc_url_raw`, `is_numeric`, `filter_var` and the capability check are not reimplemented. They are arbitrary functions in `Env`. Two array cases are fixed by WordPress itself and are modelled: `sanitize_text_field` answers '' for an array, and `esc_url_raw` begins with `ltrim`, which raises on one. What `wp_kses_post` makes of an array is the separate `Env` field `ksesPostArray`.
- The text of the settings messages (`sprintf`/`__`) is not modelled. An error is its code plus the field id.
- PHP integers, floats and booleans as stored values are not modelled. Values are null, strings and arrays, which is what an options export holds after `stripslashes`.
- Numeric-string keys (PHP turns `"5"` into `5`) are not modelled. Setting ids are always string keys.
- PHP versions before 8 are not modelled. The model uses PHP 8 behaviour, where a PHP string builtin given an array (`preg_match`, `trim`, `strlen`, the `ltrim` inside `esc_url_raw`) or a write to a string offset raises an Error (`Fault`), and the Error aborts the whole restore.
- Settings-schema entries that are not arrays with `id` and `type` are not modelled. A setting is a pair of strings.
- Restore.RestoreFaults: stated only for schemas whose setting ids are distinct. With a repeated id the later setting re-validates the earlier one's output. `RestoreStep` and `RestoreAll` model that case too.
- Restore.RestoreSettled: stated only for schemas whose setting ids are distinct, for the same reason.
- Restore.RestoreErrors: stated only for schemas whose setting ids are distinct, for the same reason.
- Restore.AfterActivationRule: stated only for schemas whose setting ids are distinct, for the same reason.
- CompositeProps.SocialLinksResult: stated for inputs whose nested arrays have unique keys, which every PHP array has.
- CompositeProps.BoxShadowErrors: states the errors only. The `text` re-validations report none, so the only errors are the colour's.
- LeafProps.MeasurementOnString: PHP's `$input[0]` on a string is its first byte, and the model takes the first character. The two agree when the first character is a single byte (ASCII); for a multi-byte first character the model rewrites the whole character where PHP rewrites one byte.
- Strings are sequences of characters, not bytes. No rule here depends on the encoding except the string-offset case of `measurement` above.
- LeafProps.TextIdempotent: stated under the condition that `wp_kses_post` is idempotent, which WordPress does not promise; without it a second pass may filter further.
- LeafProps.UploadIdempotent: stated under the condition that `esc_url_raw` is idempotent, for the same reason.
