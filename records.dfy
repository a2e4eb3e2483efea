/** The record that the Collins parser builds for one headword, and the
    Option type that stands for Python's `None`. */
module Records {

  datatype Option<+T> = None | Some(value: T)

  /** One example sentence of a meaning and its translation. */
  datatype Example = Example(text: string, translation: string)

  /** One meaning: its word category, its marked-up text and its examples. */
  datatype Meaning = Meaning(category: string, text: string, examples: seq<Example>)

  /** The dictionary object `{"word", "phonetic", "meanings"}`. */
  datatype Record = Record(word: string, phonetic: string, meanings: seq<Meaning>)
}
