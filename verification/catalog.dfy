/** A tutorial record of `data/tutorials.json`. Every field but the id may be
    missing; `tags` is optional as a whole because an empty array is still a
    present (truthy) value in JavaScript. */
module Catalog {
  import opened Values

  datatype Tutorial = Tutorial(
    id: string,
    title: Option<string>,
    description: Option<string>,
    explanation: Option<string>,
    code: Option<string>,
    example: Option<string>,
    tags: Option<seq<string>>,
    language: Option<string>,
    level: Option<string>)

  /** What both tutorial pages show when `data/tutorials.json` cannot be loaded. */
  const LoadFailedMessage := "Failed to load tutorials."

  /** `t.tags || []` */
  function TagsOrEmpty(t: Tutorial): seq<string> {
    if t.tags.Some? then t.tags.value else []
  }

  /** `t.tags && t.tags[0]`, as an optional string. */
  function FirstTag(t: Tutorial): Option<string> {
    if t.tags.Some? && |t.tags.value| > 0 then Some(t.tags.value[0]) else None
  }
}
