/** The achievement record both scripts read and write: one value of the JSON mapping kept
    in src/content/achievements/temp.json. */
module Achievements {

  /** One achievement. `authors` is the primary author followed by the lab's co-author label
      whenever either script writes it. */
  datatype Record = Record(
    title: string,
    tags: seq<string>,
    authors: seq<string>,
    year: string,
    publisher: string,
    link: string)

  /** One key/value pair of the mapping; the mapping itself is a sequence of these in
      insertion order, as a Python dict iterates. */
  type Entry = (string, Record)

  /** The fixed co-author label written as the second author. */
  const CoAuthor: string := "飯間等"
}
