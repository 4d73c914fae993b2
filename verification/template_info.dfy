/**
 * `getTemplateInfo` of the site editor: the title and description shown for a
 * template entity, with fallbacks to default details looked up by slug.
 *
 * A JavaScript value that may be `undefined` is an `Option`; a string is
 * truthy when it is present and not empty.
 */
module TemplateInfo {
  import opened Wrappers

  const TEMPLATE_PART: string := "wp_template_part"

  /** The key JavaScript uses when `undefined` indexes an object. */
  const UNDEFINED_KEY: string := "undefined"

  /** The fields of a template entity that the function reads. */
  datatype Template = Template(
    kind: Option<string>,           // `template.type`
    slug: Option<string>,           // `template.slug`
    renderedTitle: Option<string>,  // `template.title.rendered`
    excerptRaw: Option<string>)     // `template.excerpt.raw`

  /** An entry of a default-details table: `{ title, description }`, either may be missing. */
  datatype Details = Details(title: Option<string>, description: Option<string>)

  /** The returned object: `{}` or `{ title, description }`. */
  datatype Info = Empty | Info(title: Option<string>, description: Option<string>)

  predicate Truthy(s: Option<string>) {
    s.Some? && s.value != ""
  }

  /** `a || b` on two possibly-undefined strings. */
  function Or(a: Option<string>, b: Option<string>): (r: Option<string>)
    ensures Truthy(a) ==> r == a
    ensures !Truthy(a) ==> r == b
  {
    if Truthy(a) then a else b
  }

  /** The property name an object lookup by `slug` uses. */
  function SlugKey(slug: Option<string>): (k: string)
    ensures slug.Some? ==> k == slug.value
    ensures slug.None? ==> k == UNDEFINED_KEY
  {
    match slug
    case Some(s) => s
    case None => UNDEFINED_KEY
  }

  /**
   * `defaultTemplateDetails[ slug ] || TEMPLATES_DEFAULT_DETAILS[ slug ] || {}`.
   * The built-in table is a parameter: its contents are not part of this model.
   */
  function DefaultsFor(slug: Option<string>, callerDetails: map<string, Details>,
                       builtinDetails: map<string, Details>): (d: Details)
    ensures SlugKey(slug) in callerDetails ==> d == callerDetails[SlugKey(slug)]
    ensures SlugKey(slug) !in callerDetails && SlugKey(slug) in builtinDetails ==> d == builtinDetails[SlugKey(slug)]
    ensures SlugKey(slug) !in callerDetails && SlugKey(slug) !in builtinDetails ==> d == Details(None, None)
  {
    var key := SlugKey(slug);
    if key in callerDetails then callerDetails[key]
    else if key in builtinDetails then builtinDetails[key]
    else Details(None, None)
  }

  /**
   * `getTemplateInfo( template, defaultTemplateDetails )`; `None` stands for a
   * falsy template.
   */
  function GetTemplateInfo(template: Option<Template>, callerDetails: map<string, Details>,
                           builtinDetails: map<string, Details>): (r: Info)
    ensures r.Empty? <==> template.None?
  {
    match template
    case None => Empty
    case Some(t) =>
      if t.kind == Some(TEMPLATE_PART) then Info(t.slug, Some(""))
      else
        var defaults := DefaultsFor(t.slug, callerDetails, builtinDetails);
        Info(Or(Or(t.renderedTitle, defaults.title), t.slug), Or(t.excerptRaw, defaults.description))
  }

  /** A template part is titled by its slug and has an empty description, whatever the tables hold. */
  lemma TemplatePartInfo(t: Template, callerDetails: map<string, Details>, builtinDetails: map<string, Details>)
    requires t.kind == Some(TEMPLATE_PART)
    ensures GetTemplateInfo(Some(t), callerDetails, builtinDetails) == Info(t.slug, Some(""))
  {
  }

  /**
   * The title falls back from the rendered title to the default title to the
   * slug, taking the first truthy one.
   */
  lemma TitleFallback(t: Template, callerDetails: map<string, Details>, builtinDetails: map<string, Details>)
    requires t.kind != Some(TEMPLATE_PART)
    ensures var r := GetTemplateInfo(Some(t), callerDetails, builtinDetails);
            var d := DefaultsFor(t.slug, callerDetails, builtinDetails);
            && r.Info?
            && (Truthy(t.renderedTitle) ==> r.title == t.renderedTitle)
            && (!Truthy(t.renderedTitle) && Truthy(d.title) ==> r.title == d.title)
            && (!Truthy(t.renderedTitle) && !Truthy(d.title) ==> r.title == t.slug)
  {
  }

  /** A template with a non-empty slug is always shown with a non-empty title. */
  lemma TitleNeverEmpty(t: Template, callerDetails: map<string, Details>, builtinDetails: map<string, Details>)
    requires Truthy(t.slug)
    ensures var r := GetTemplateInfo(Some(t), callerDetails, builtinDetails);
            r.Info? && Truthy(r.title)
  {
  }

  /** The description is the raw excerpt when truthy, otherwise the default description, which may be missing. */
  lemma DescriptionFallback(t: Template, callerDetails: map<string, Details>, builtinDetails: map<string, Details>)
    requires t.kind != Some(TEMPLATE_PART)
    ensures var r := GetTemplateInfo(Some(t), callerDetails, builtinDetails);
            var d := DefaultsFor(t.slug, callerDetails, builtinDetails);
            && r.Info?
            && (Truthy(t.excerptRaw) ==> r.description == t.excerptRaw)
            && (!Truthy(t.excerptRaw) ==> r.description == d.description)
  {
  }

  /**
   * Details the caller supplies for the slug take precedence: the built-in
   * table is then not consulted at all.
   */
  lemma CallerDetailsTakePrecedence(t: Template, callerDetails: map<string, Details>,
                                    builtin1: map<string, Details>, builtin2: map<string, Details>)
    requires SlugKey(t.slug) in callerDetails
    ensures DefaultsFor(t.slug, callerDetails, builtin1) == callerDetails[SlugKey(t.slug)]
    ensures GetTemplateInfo(Some(t), callerDetails, builtin1) == GetTemplateInfo(Some(t), callerDetails, builtin2)
  {
  }

  /** Without caller details for the slug, the built-in entry is used when there is one. */
  lemma BuiltinDetailsUsed(t: Template, callerDetails: map<string, Details>, builtinDetails: map<string, Details>)
    requires SlugKey(t.slug) !in callerDetails && SlugKey(t.slug) in builtinDetails
    ensures DefaultsFor(t.slug, callerDetails, builtinDetails) == builtinDetails[SlugKey(t.slug)]
    ensures GetTemplateInfo(Some(t), callerDetails, builtinDetails)
         == GetTemplateInfo(Some(t), map[], builtinDetails)
  {
  }

  /**
   * When neither table knows the slug, the defaults are empty: the title is
   * the rendered title or the slug, the description the raw excerpt or missing.
   */
  lemma NoDefaults(t: Template, callerDetails: map<string, Details>, builtinDetails: map<string, Details>)
    requires t.kind != Some(TEMPLATE_PART)
    requires SlugKey(t.slug) !in callerDetails && SlugKey(t.slug) !in builtinDetails
    ensures GetTemplateInfo(Some(t), callerDetails, builtinDetails)
         == Info(Or(t.renderedTitle, t.slug), if Truthy(t.excerptRaw) then t.excerptRaw else None)
  {
  }
}
