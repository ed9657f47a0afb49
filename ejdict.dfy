/**
 * The public entry point of the library: `look` over the loaded dictionary,
 * turning "no entry" into a typed `NotFound` error. The dictionary is passed
 * in rather than read from the process-wide holder.
 */
module Ejdict {
  import opened Wrappers
  import opened EjdictCore

  /** The library's error kinds; the environment and decoding failures carry no detail here. */
  datatype ErrorKind = EnvVar | Serde | NotFound(en: string)

  /** The first matching entry, or `NotFound` naming the searched word. */
  function Look(dict: Dictionary, word: string, mode: SearchMode): (r: Result<Word, ErrorKind>)
    ensures r.Err? <==> forall i | 0 <= i < |dict.words| :: !dict.words[i].Matches(word, mode)
    ensures r.Err? ==> r.error == NotFound(word)
    ensures r.Ok? ==> r.value in dict.words && r.value.Matches(word, mode)
    ensures r.Ok? ==> dict.Look(word, mode) == Some(r.value)
  {
    match dict.Look(word, mode)
    case Some(w) => Ok(w)
    case None => Err(NotFound(word))
  }
}
