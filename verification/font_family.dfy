/**
 * The font-family block support: a preset is stored in the block's style
 * attribute as `var:preset|font-family|<slug>`, decoded back to the preset's
 * CSS value for the control, and offered in a list of options.
 */
module FontFamily {
  import opened Wrappers

  const PRESET_PREFIX: string := "var:preset|font-family|"

  /** The label of the first option, before translation. */
  const DEFAULT_LABEL: string := "Default"

  /** A font-family preset `{ slug, value, name }`; the name may be missing. */
  datatype FontFamilyPreset = FontFamilyPreset(slug: string, value: string, name: Option<string>)

  /** An entry of the select control: `{ key, name, style: { fontFamily } }`; the default entry has no style. */
  datatype SelectOption = SelectOption(key: string, name: string, style: Option<string>)

  datatype DecodeError = NoPresetWithSlug(slug: string)

  // ---------------------------------------------------------------------------
  // The pattern /var:preset\|font-family\|(.+)/
  // ---------------------------------------------------------------------------

  /** The characters `.` does not match in a JavaScript regular expression. */
  predicate IsLineTerminator(c: char) {
    c == '\n' || c == '\r' || c == '\U{2028}' || c == '\U{2029}'
  }

  /**
   * The pattern matches starting at index `i`: the prefix, then at least one
   * character `.` accepts; the group a match captures is therefore never empty.
   */
  predicate MatchAt(s: string, i: nat) {
    i + |PRESET_PREFIX| < |s|
    && s[i..i + |PRESET_PREFIX|] == PRESET_PREFIX
    && !IsLineTerminator(s[i + |PRESET_PREFIX|])
  }

  /**
   * Wherever the prefix occurs, the pattern matches there exactly when a
   * character other than a line terminator follows it.
   */
  lemma MatchAfterPrefix(before: string, rest: string)
    ensures MatchAt(before + PRESET_PREFIX + rest, |before|) <==> rest != [] && !IsLineTerminator(rest[0])
  {
    var s := before + PRESET_PREFIX + rest;
    var n := |PRESET_PREFIX|;
    assert s[|before|..|before| + n] == PRESET_PREFIX;
    if rest != [] {
      assert s[|before| + n] == rest[0];
    }
  }

  /** Where the greedy `(.+)` starting at `j` stops: the first line terminator at or after `j`, or the end. */
  function RunEnd(s: string, j: nat): (e: nat)
    requires j <= |s|
    ensures j <= e <= |s|
    ensures forall k :: j <= k < e ==> !IsLineTerminator(s[k])
    ensures e < |s| ==> IsLineTerminator(s[e])
    decreases |s| - j
  {
    if j == |s| || IsLineTerminator(s[j]) then j else RunEnd(s, j + 1)
  }

  /**
   * `exec` from index `i` on: the group captured at the leftmost match, if
   * any. A captured group is never empty and holds no line terminator.
   */
  function ExecFrom(s: string, i: nat): (r: Option<string>)
    ensures r.Some? ==> r.value != []
    ensures r.Some? ==> forall m :: 0 <= m < |r.value| ==> !IsLineTerminator(r.value[m])
    decreases |s| - i
  {
    if i + |PRESET_PREFIX| >= |s| then None
    else if MatchAt(s, i) then
      var start := i + |PRESET_PREFIX|;
      var group := s[start..RunEnd(s, start)];
      assert forall m :: 0 <= m < |group| ==> group[m] == s[start + m];
      Some(group)
    else ExecFrom(s, i + 1)
  }

  /** `/var:preset\|font-family\|(.+)/.exec( s )`, reduced to the captured group. */
  function Exec(s: string): (r: Option<string>)
    ensures r.Some? ==> r.value != []
    ensures r.Some? ==> forall m :: 0 <= m < |r.value| ==> !IsLineTerminator(r.value[m])
  {
    ExecFrom(s, 0)
  }

  /** `exec` fails exactly when the pattern matches nowhere from `i` on. */
  lemma {:induction false} ExecFromNone(s: string, i: nat)
    ensures ExecFrom(s, i).None? <==> forall k :: i <= k ==> !MatchAt(s, k)
    decreases |s| - i
  {
    if i + |PRESET_PREFIX| < |s| && !MatchAt(s, i) {
      ExecFromNone(s, i + 1);
    }
  }

  /**
   * When `exec` succeeds, the group is taken at the leftmost match: it is the
   * longest run of characters after the prefix that holds no line terminator.
   */
  lemma {:induction false} ExecFromLeftmost(s: string, i: nat, c: string) returns (k: nat)
    requires ExecFrom(s, i) == Some(c)
    ensures i <= k && MatchAt(s, k)
    ensures forall m :: i <= m < k ==> !MatchAt(s, m)
    ensures c == s[k + |PRESET_PREFIX|..RunEnd(s, k + |PRESET_PREFIX|)]
    decreases |s| - i
  {
    assert i + |PRESET_PREFIX| < |s|;
    if MatchAt(s, i) {
      k := i;
      var start := i + |PRESET_PREFIX|;
      assert ExecFrom(s, i) == Some(s[start..RunEnd(s, start)]);
    } else {
      assert ExecFrom(s, i + 1) == Some(c);
      k := ExecFromLeftmost(s, i + 1, c);
    }
  }

  /** The prefix followed by a non-empty slug without line terminators captures exactly that slug. */
  lemma ExecPreset(slug: string)
    requires slug != []
    requires forall m :: 0 <= m < |slug| ==> !IsLineTerminator(slug[m])
    ensures Exec(PRESET_PREFIX + slug) == Some(slug)
  {
    var s := PRESET_PREFIX + slug;
    var n := |PRESET_PREFIX|;
    assert s[0..n] == PRESET_PREFIX;
    assert s[n] == slug[0];
    assert MatchAt(s, 0);
    RunToEnd(s, n);
    assert s[n..|s|] == slug;
  }

  /** When no line terminator follows `j`, the run reaches the end of the string. */
  lemma {:induction false} RunToEnd(s: string, j: nat)
    requires j <= |s|
    requires forall k :: j <= k < |s| ==> !IsLineTerminator(s[k])
    ensures RunEnd(s, j) == |s|
    decreases |s| - j
  {
    if j < |s| {
      RunToEnd(s, j + 1);
    }
  }

  // ---------------------------------------------------------------------------
  // Looking presets up
  // ---------------------------------------------------------------------------

  /** `find`: the index of the first element satisfying `p`, or nothing when none does. */
  function FindFirst<T>(s: seq<T>, p: T -> bool): (r: Option<nat>)
    ensures r.Some? ==> r.value < |s| && p(s[r.value])
    ensures r.Some? ==> forall k :: 0 <= k < r.value ==> !p(s[k])
    ensures r.None? ==> forall k :: 0 <= k < |s| ==> !p(s[k])
  {
    if s == [] then None
    else if p(s[0]) then Some(0)
    else match FindFirst(s[1..], p)
      case None => None
      case Some(k) => Some(k + 1)
  }

  /** `find( fontFamilies, ( { slug } ) => slug === wanted )`. */
  function FindBySlug(families: seq<FontFamilyPreset>, wanted: string): (r: Option<nat>)
    ensures r.Some? ==> r.value < |families| && families[r.value].slug == wanted
    ensures r.Some? ==> forall k :: 0 <= k < r.value ==> families[k].slug != wanted
    ensures r.None? ==> forall k :: 0 <= k < |families| ==> families[k].slug != wanted
  {
    FindFirst(families, (f: FontFamilyPreset) => f.slug == wanted)
  }

  /** `find( fontFamilies, ( { value } ) => value === wanted )`. */
  function FindByValue(families: seq<FontFamilyPreset>, wanted: string): (r: Option<nat>)
    ensures r.Some? ==> r.value < |families| && families[r.value].value == wanted
    ensures r.Some? ==> forall k :: 0 <= k < r.value ==> families[k].value != wanted
    ensures r.None? ==> forall k :: 0 <= k < |families| ==> families[k].value != wanted
  {
    FindFirst(families, (f: FontFamilyPreset) => f.value == wanted)
  }

  // ---------------------------------------------------------------------------
  // Decoding, encoding and the option list
  // ---------------------------------------------------------------------------

  /**
   * `getFontFamilyFromAttributeValue( fontFamilies, value )`. `exec` converts
   * an undefined value to the string "undefined". A preset reference whose
   * slug no family has makes `find` return undefined and `.value` throw.
   */
  function Decode(families: seq<FontFamilyPreset>, value: Option<string>): (r: Result<Option<string>, DecodeError>)
    ensures Exec(if value.None? then "undefined" else value.value).None? ==> r == Ok(value)
    ensures r.Err? ==> Exec(if value.None? then "undefined" else value.value).Some?
    ensures var c := Exec(if value.None? then "undefined" else value.value);
            c.Some? ==>
              && (r.Err? <==> FindBySlug(families, c.value).None?)
              && (r.Err? ==> r.error == NoPresetWithSlug(c.value))
              && (FindBySlug(families, c.value).Some? ==>
                    r == Ok(Some(families[FindBySlug(families, c.value).value].value)))
  {
    var text := if value.None? then "undefined" else value.value;
    match Exec(text)
    case None => Ok(value)
    case Some(slug) =>
      match FindBySlug(families, slug)
      case None => Err(NoPresetWithSlug(slug))
      case Some(k) => Ok(Some(families[k].value))
  }

  /**
   * The `fontFamily` the `onChange` handler stores: the preset reference of
   * the first family with that value, else the value itself, else undefined
   * for the empty string.
   */
  function Encode(families: seq<FontFamilyPreset>, newValue: string): (r: Option<string>)
    ensures r == None <==> newValue == "" && FindByValue(families, newValue).None?
    ensures FindByValue(families, newValue).Some? ==>
              r == Some(PRESET_PREFIX + families[FindByValue(families, newValue).value].slug)
    ensures FindByValue(families, newValue).None? && newValue != "" ==> r == Some(newValue)
  {
    match FindByValue(families, newValue)
    case Some(k) => Some(PRESET_PREFIX + families[k].slug)
    case None => if newValue != "" then Some(newValue) else None
  }

  /** The options of `FontFamilyControl`. */
  function Options(families: seq<FontFamilyPreset>): (r: seq<SelectOption>)
    ensures |r| == |families| + 1
    ensures r[0] == SelectOption("", DEFAULT_LABEL, None)
    ensures forall i :: 0 <= i < |families| ==> r[i + 1].key == families[i].value
    ensures forall i :: 0 <= i < |families| ==> r[i + 1].style == Some(families[i].value)
    ensures forall i :: 0 <= i < |families| ==> r[i + 1] == FamilyOption(families[i])
    ensures forall i :: 0 <= i < |families| ==> r[i + 1].name != "" || families[i].value == ""
  {
    [SelectOption("", DEFAULT_LABEL, None)]
      + seq(|families|, i requires 0 <= i < |families| => FamilyOption(families[i]))
  }

  /** One family's option: keyed by its value, named by its name or else its value. */
  function FamilyOption(f: FontFamilyPreset): (o: SelectOption)
    ensures o.key == f.value && o.style == Some(f.value)
    ensures f.name.Some? && f.name.value != "" ==> o.name == f.name.value
    ensures f.name.None? || f.name.value == "" ==> o.name == f.value
  {
    var shown := if f.name.Some? && f.name.value != "" then f.name.value else f.value;
    SelectOption(f.value, shown, Some(f.value))
  }

  /** `options.find( ( option ) => option.key === value )`. */
  function SelectedOption(options: seq<SelectOption>, value: string): (r: Option<nat>)
    ensures r.Some? ==> r.value < |options| && options[r.value].key == value
    ensures r.Some? ==> forall k :: 0 <= k < r.value ==> options[k].key != value
    ensures r.None? ==> forall k :: 0 <= k < |options| ==> options[k].key != value
  {
    FindFirst(options, (o: SelectOption) => o.key == value)
  }

  /** `useIsFontFamilyDisabled`: no presets (missing or empty), or the block lacks the support. */
  function IsFontFamilyDisabled(presets: Option<seq<FontFamilyPreset>>, hasSupport: bool): (disabled: bool)
    ensures disabled <==> presets.None? || presets.value == [] || !hasSupport
  {
    var families := if presets.Some? then presets.value else [];
    |families| == 0 || !hasSupport
  }

  /** What `FontFamilyEdit` renders: nothing, or the control with its options and decoded value. */
  datatype Control = Control(options: seq<SelectOption>, value: Option<string>)

  function FontFamilyEdit(presets: Option<seq<FontFamilyPreset>>, hasSupport: bool,
                          attribute: Option<string>): (r: Result<Option<Control>, DecodeError>)
    ensures IsFontFamilyDisabled(presets, hasSupport) <==> r == Ok(None)
  {
    if IsFontFamilyDisabled(presets, hasSupport) then Ok(None)
    else
      var families := presets.value;
      match Decode(families, attribute)
      case Err(e) => Err(e)
      case Ok(v) => Ok(Some(Control(Options(families), v)))
  }

  // ---------------------------------------------------------------------------
  // Properties
  // ---------------------------------------------------------------------------

  predicate UniqueSlugs(families: seq<FontFamilyPreset>) {
    forall i, j :: 0 <= i < j < |families| ==> families[i].slug != families[j].slug
  }

  predicate UniqueValues(families: seq<FontFamilyPreset>) {
    forall i, j :: 0 <= i < j < |families| ==> families[i].value != families[j].value
  }

  /** A slug the pattern can capture whole. */
  predicate CapturableSlug(slug: string) {
    slug != [] && forall m :: 0 <= m < |slug| ==> !IsLineTerminator(slug[m])
  }

  /** Storing a preset's value and reading it back gives that value, when slugs are unique and capturable. */
  lemma EncodeDecode(families: seq<FontFamilyPreset>, i: nat)
    requires i < |families|
    requires UniqueSlugs(families)
    requires forall k :: 0 <= k < |families| ==> CapturableSlug(families[k].slug)
    ensures Decode(families, Encode(families, families[i].value)) == Ok(Some(families[i].value))
  {
    var k := FindByValue(families, families[i].value).value;
    ExecPreset(families[k].slug);
    var j := FindBySlug(families, families[k].slug).value;
    assert j == k;
  }

  /** A stored preset reference decodes to the preset's value and is stored again unchanged, when values are unique. */
  lemma DecodeEncode(families: seq<FontFamilyPreset>, i: nat)
    requires i < |families|
    requires UniqueSlugs(families) && UniqueValues(families)
    requires CapturableSlug(families[i].slug)
    ensures Decode(families, Some(PRESET_PREFIX + families[i].slug)) == Ok(Some(families[i].value))
    ensures Encode(families, families[i].value) == Some(PRESET_PREFIX + families[i].slug)
  {
    ExecPreset(families[i].slug);
    assert FindBySlug(families, families[i].slug).value == i;
    assert FindByValue(families, families[i].value).value == i;
  }

  /** A custom value that is not a preset's and does not look like a reference is stored and read back verbatim. */
  lemma CustomValueRoundTrip(families: seq<FontFamilyPreset>, v: string)
    requires v != ""
    requires forall k :: 0 <= k < |families| ==> families[k].value != v
    requires forall k :: !MatchAt(v, k)
    ensures Encode(families, v) == Some(v)
    ensures Decode(families, Some(v)) == Ok(Some(v))
  {
    ExecFromNone(v, 0);
  }

  /** A reference to a slug no preset has cannot be decoded. */
  lemma UnknownSlugFails(families: seq<FontFamilyPreset>, slug: string)
    requires CapturableSlug(slug)
    requires forall k :: 0 <= k < |families| ==> families[k].slug != slug
    ensures Decode(families, Some(PRESET_PREFIX + slug)) == Err(NoPresetWithSlug(slug))
  {
    ExecPreset(slug);
  }

  /** A missing attribute is shown as missing: "undefined" does not match the pattern. */
  lemma MissingAttributeUnchanged(families: seq<FontFamilyPreset>)
    ensures Decode(families, None) == Ok(None)
  {
  }

  /**
   * The control shows the option of the first preset with the decoded value,
   * and picking that option stores the preset reference again.
   */
  lemma ShownOptionOfPreset(families: seq<FontFamilyPreset>, i: nat)
    requires i < |families|
    requires UniqueValues(families)
    requires families[i].value != ""
    ensures SelectedOption(Options(families), families[i].value) == Some(i + 1)
    ensures Encode(families, Options(families)[i + 1].key) == Some(PRESET_PREFIX + families[i].slug)
  {
    var options := Options(families);
    var r := SelectedOption(options, families[i].value);
    assert options[i + 1].key == families[i].value;
    assert FindByValue(families, families[i].value).value == i;
  }

  /** The empty value selects the default entry; picking it clears the attribute when no preset has the empty value. */
  lemma DefaultOptionClears(families: seq<FontFamilyPreset>)
    requires forall k :: 0 <= k < |families| ==> families[k].value != ""
    ensures SelectedOption(Options(families), "") == Some(0)
    ensures Encode(families, Options(families)[0].key) == None
  {
  }
}
