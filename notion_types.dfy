/**
 * The part of a Notion page object that the blog reads: its id and its property bag,
 * where each property value is tagged by its `type`.
 */
module NotionTypes {
  import opened Wrappers

  /** One rich-text span. Only `plain_text` is read by the core. */
  datatype RichText = RichText(plainText: string)

  /** A property value, one constructor per `type` the core distinguishes. */
  datatype PropertyValue =
    | Title(title: seq<RichText>)
    | RichTextProperty(richText: seq<RichText>)
    | Select(selectName: Option<string>)   // None: no option selected (`select` is null)
    | Status(statusName: Option<string>)   // None: `status` is null
    | Date(start: Option<string>)          // None: `date` is null
    | OtherProperty(kind: string)          // checkbox, number, url, ...

  /** A page's properties, by property name. */
  type Properties = map<string, PropertyValue>

  /** A full page object (`PageObjectResponse`). */
  datatype Page = Page(id: string, properties: Properties)

  /**
   * One element of a database query's `results`: `objectType` is the `object` field, "page" or "database", and
   * partial objects (`PartialPageObjectResponse`, ...) carry no `properties`.
   */
  datatype Entry = Entry(objectType: string, id: string, properties: Option<Properties>)

  /** A property by name, absent when the page has no property of that name. */
  function Lookup(properties: Properties, name: string): (r: Option<PropertyValue>)
    ensures r.Some? <==> name in properties
    ensures r.Some? ==> r.value == properties[name]
  {
    if name in properties then Some(properties[name]) else None
  }
}
