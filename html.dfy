/**
 * The parsed page, as the audit sees it through its HTML parser: every element
 * in document order, each with the facts the audit asks of it.
 */
module Html {
  import opened Wrappers

  /**
   * One element of the parsed document.
   *   name         the lower-case tag name
   *   attrs        the element's attributes
   *   text         `get_text(strip=True)`: each text piece stripped of white space, the
   *                pieces joined with no separator (`<a>Read <b>more</b></a>` gives "Readmore")
   *   soleString   the element's `.string`: its text when it has exactly one text child, else None
   *   forms        how many `form` elements enclose it
   *   labelBefore  whether some earlier sibling is a `label` element
   */
  datatype Tag = Tag(
    name: string,
    attrs: map<string, string>,
    text: string,
    soleString: Option<string>,
    forms: nat,
    labelBefore: bool)

  /** A parsed page: its elements in document order and the number of words of its text. */
  datatype Page = Page(tags: seq<Tag>, wordCount: nat)

  /** `tag.get(key)`. */
  function Get(t: Tag, key: string): Option<string>
  {
    if key in t.attrs then Some(t.attrs[key]) else None
  }

  /** `tag.get(key, default)`. */
  function GetOr(t: Tag, key: string, default: string): string
  {
    if key in t.attrs then t.attrs[key] else default
  }

  /** Python truthiness of `tag.get(key)`: present and not the empty string. */
  predicate HasValue(t: Tag, key: string)
  {
    key in t.attrs && t.attrs[key] != ""
  }

  /** An element matched by `find_all(name, **{key: value})`. */
  predicate NamedWith(t: Tag, name: string, key: string, value: string)
  {
    t.name == name && key in t.attrs && t.attrs[key] == value
  }

  /** An anchor as `find_all('a', href=True)` matches it: an `a` element with an `href`, even an empty one. */
  predicate IsAnchor(t: Tag)
  {
    t.name == "a" && "href" in t.attrs
  }

  /** `link.get('href', '')`. */
  function Href(t: Tag): string
  {
    GetOr(t, "href", "")
  }
}
