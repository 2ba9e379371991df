/** The normalized shapes the readers of scripts/navigation_value.py produce. */
module Corpora {
  import opened PyText

  /** One tool call: what the classifier needs of it. `extension` and `pathKey` are the
      path's suffix and its normalized form, empty where the call names no path. */
  datatype Call = Call(
    tool: string, useId: Option<string>, extension: string, pathKey: string,
    symbolSearch: bool, isSearch: bool, windowed: bool, sidechain: bool)

  /** The calls between two context resets. */
  type Window = seq<Call>

  /** Result size, and whether a subagent read it. */
  datatype Size = Size(chars: int, fromSubagent: bool)

  datatype Corpus = Corpus(windows: seq<Window>, sizes: map<string, Size>, sessions: nat, malformed: nat)

  function Concat<T>(lists: seq<seq<T>>): seq<T> {
    if lists == [] then [] else Concat(lists[..|lists| - 1]) + lists[|lists| - 1]
  }
}
