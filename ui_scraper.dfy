/** The element records of the UI dump (ui_scraper.py): which attributes a
    record keeps and which elements are worth keeping at all. What the
    webdriver reports about an element is an input here. */
module UiScraper {
  import opened Text

  /** The tags worth showing to the model (ui_scraper.py lines 3-7). */
  const ImportantTags: set<string> := {"button", "input", "a", "select", "textarea", "img", "label"}

  /** The attributes a record keeps (ui_scraper.py lines 9-14). */
  const Attributes: set<string> :=
    {"id", "class", "name", "type", "placeholder", "role", "aria-label", "href", "src"}

  datatype Point = Point(x: int, y: int)

  datatype Size = Size(height: int, width: int)

  /** What the webdriver reports for one element. `get_attribute` gives None
      for a name missing from `attributes`. */
  datatype DomElement = DomElement(
    tagName: string,
    text: string,
    attributes: map<string, string>,
    displayed: bool,
    enabled: bool,
    location: Point,
    size: Size)

  /** A cleaned element, as it is written to the UI dump. */
  datatype ElementRecord = ElementRecord(
    tag: string,
    text: string,
    attributes: map<string, string>,
    visible: bool,
    enabled: bool,
    location: Point,
    size: Size)

  /** `if value:` — the attribute is present and not the empty string. */
  predicate Truthy(el: DomElement, name: string) {
    name in el.attributes && el.attributes[name] != ""
  }

  /** The truthy attributes of `el` among `names`. */
  function Kept(el: DomElement, names: set<string>): map<string, string> {
    map name | name in names && Truthy(el, name) :: el.attributes[name]
  }

  /** Looking at one more name adds it exactly when it is truthy. */
  lemma KeptAdd(el: DomElement, names: set<string>, name: string)
    ensures Kept(el, names + {name}) ==
      if Truthy(el, name) then Kept(el, names)[name := el.attributes[name]] else Kept(el, names)
  {
  }

  /** The record `clean_element` builds for an element. */
  function Clean(el: DomElement): (r: ElementRecord)
    ensures r.attributes.Keys <= Attributes
    ensures forall name :: name in r.attributes <==> name in Attributes && Truthy(el, name)
    ensures forall name :: name in r.attributes ==> name in el.attributes && r.attributes[name] == el.attributes[name]
    ensures r.text == Strip(el.text) && IsStripped(r.text)
    ensures r.tag == el.tagName && r.visible == el.displayed && r.enabled == el.enabled
    ensures r.location == el.location && r.size == el.size
  {
    StripSplits(el.text);
    ElementRecord(
      el.tagName,
      Strip(el.text),
      Kept(el, Attributes),
      el.displayed,
      el.enabled,
      el.location,
      el.size)
  }

  /** `clean_element`: the attribute map is filled one allow-listed name at a
      time, in whatever order the set yields them. */
  method CleanElement(el: DomElement) returns (r: ElementRecord)
    ensures r == Clean(el)
  {
    var attributes: map<string, string> := map[];
    var todo := Attributes;
    while todo != {}
      invariant todo <= Attributes
      invariant attributes == Kept(el, Attributes - todo)
      decreases |todo|
    {
      var name :| name in todo;
      KeptAdd(el, Attributes - todo, name);
      assert Attributes - (todo - {name}) == (Attributes - todo) + {name};
      if name in el.attributes && el.attributes[name] != "" {
        attributes := attributes[name := el.attributes[name]];
      }
      todo := todo - {name};
    }
    r := ElementRecord(el.tagName, Strip(el.text), attributes, el.displayed, el.enabled, el.location, el.size);
  }

  /** `filter_element`: the record's tag is one of the seven important ones. */
  predicate FilterElement(r: ElementRecord)
    ensures FilterElement(r) <==>
      r.tag == "button" || r.tag == "input" || r.tag == "a" || r.tag == "select" ||
      r.tag == "textarea" || r.tag == "img" || r.tag == "label"
  {
    r.tag in ImportantTags
  }
}
