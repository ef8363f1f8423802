/** The JSON payloads the program decodes, cut down to the fields it reads.
    Every other field of the vendor schemas is left out: none of them
    influences a decision. */
module Payloads {

  /** The player configuration embedded in an episode page
      (`RCCEpisodeJSON`); only `idMedia` is used downstream. */
  datatype EpisodeConfig = EpisodeConfig(appCode: string, idMedia: string)

  /** The validation endpoint's reply (`RCCURLJSON`). */
  datatype ValidationReply = ValidationReply(url: string, errorCode: int)

  /** One entry of a season lineup. */
  datatype LineupItem = LineupItem(key: string, title: string, template: string)

  datatype Lineup = Lineup(name: string, items: seq<LineupItem>)

  /** The presentation API's reply (`PresentationResponse`). */
  datatype Presentation = Presentation(seasonLineups: seq<Lineup>)
}
