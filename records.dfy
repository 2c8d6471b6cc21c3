/** The record every extractor emits, and what all three promise about their output. */
module Records {
  import opened JsValues

  /**
   * One image of an engine's list. `title`, `url` and `thumbURL` hold what the
   * extractor found: a string, `null`, or (on the JSON-based paths) whatever
   * truthy value the upstream payload carried.
   */
  datatype ImageRecord = ImageRecord(index: nat, title: JsValue, url: JsValue, thumbURL: JsValue)

  /** The indices are 1, 2, ..., |rs| in output order: no gap, no repeat. */
  predicate IndexedFromOne(rs: seq<ImageRecord>)
  {
    forall i :: 0 <= i < |rs| ==> rs[i].index == i + 1
  }

  function Min(a: int, b: int): int
  {
    if a <= b then a else b
  }
}
