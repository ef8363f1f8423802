/** The tou.tv lineup walk (`toutTv`, `presQuery`): fetch a show's
    presentation, take its first season lineup named "single" and list each
    item with its key stripped of its first six characters. */
module Presentation {
  import opened Wrappers
  import opened Payloads
  import opened Web

  const PresentationURL := "https://ici.tou.tv/presentation/"
  const PresentationQuery := "?v=2&d=android&excludeLineups=0"

  /** `presQuery`: the presentation request for a show key, inserted verbatim. */
  function PresQuery(showKey: string): (url: string)
    ensures |url| == |PresentationURL| + |showKey| + |PresentationQuery|
    ensures url[..|PresentationURL|] == PresentationURL
    ensures url[|url| - |PresentationQuery|..] == PresentationQuery
    ensures url[|PresentationURL|..|url| - |PresentationQuery|] == showKey
  {
    PresentationURL + showKey + PresentationQuery
  }

  /** The show key a presentation request asks about, if `url` is one. */
  function ShowKeyOf(url: string): (key: Option<string>)
    ensures key.Some? <==>
              && |PresentationURL| + |PresentationQuery| <= |url|
              && url[..|PresentationURL|] == PresentationURL
              && url[|url| - |PresentationQuery|..] == PresentationQuery
  {
    if |PresentationURL| + |PresentationQuery| <= |url|
       && url[..|PresentationURL|] == PresentationURL
       && url[|url| - |PresentationQuery|..] == PresentationQuery
    then Some(url[|PresentationURL|..|url| - |PresentationQuery|])
    else None
  }

  /** The show key can be read back from its request... */
  lemma ShowKeyRoundTrip(showKey: string)
    ensures ShowKeyOf(PresQuery(showKey)) == Some(showKey)
  {
  }

  /** ...and a presentation request is determined by the key read back. */
  lemma PresQueryOfShowKey(url: string, showKey: string)
    requires ShowKeyOf(url) == Some(showKey)
    ensures PresQuery(showKey) == url
  {
    var p, q := |PresentationURL|, |url| - |PresentationQuery|;
    assert url == url[..p] + url[p..q] + url[q..];
  }

  const SingleLineup := "single"
  const KeyPrefixLength := 6

  /** The index of the first lineup named `name`. */
  function FirstNamed(lineups: seq<Lineup>, name: string): (k: Option<nat>)
    ensures k.Some? ==> k.value < |lineups| && lineups[k.value].name == name
    ensures k.Some? ==> forall j | 0 <= j < k.value :: lineups[j].name != name
    ensures k.None? <==> forall j | 0 <= j < |lineups| :: lineups[j].name != name
  {
    if |lineups| == 0 then None
    else if lineups[0].name == name then Some(0)
    else
      match FirstNamed(lineups[1..], name)
      case None => None
      case Some(k) => Some(k + 1)
  }

  /** Lineup `k` is the first one named "single". */
  ghost predicate FirstWalked(lineups: seq<Lineup>, k: int) {
    && 0 <= k < |lineups|
    && lineups[k].name == SingleLineup
    && forall j | 0 <= j < k :: lineups[j].name != SingleLineup
  }

  /** One printed line: the item's position, its id, title and template. */
  datatype Row = Row(index: nat, id: string, title: string, template: string)

  /** What the walk printed, and whether it stopped on a key too short to
      slice (the slice expression panics and ends the program). */
  datatype Walk = Walk(rows: seq<Row>, panicked: bool)

  /** The item loop from position `i` on. */
  function WalkItems(items: seq<LineupItem>, i: nat): (w: Walk)
    requires i <= |items|
    ensures |w.rows| <= |items| - i
    ensures forall k | 0 <= k < |w.rows| ::
              && w.rows[k].index == i + k
              && |items[i + k].key| >= KeyPrefixLength
              && items[i + k].key == items[i + k].key[..KeyPrefixLength] + w.rows[k].id
              && w.rows[k].title == items[i + k].title
              && w.rows[k].template == items[i + k].template
    ensures w.panicked <==> exists j | i <= j < |items| :: |items[j].key| < KeyPrefixLength
    ensures !w.panicked ==> |w.rows| == |items| - i
    ensures w.panicked ==> i + |w.rows| < |items| && |items[i + |w.rows|].key| < KeyPrefixLength
    decreases |items| - i
  {
    if i == |items| then Walk([], false)
    else
      var item := items[i];
      if |item.key| < KeyPrefixLength then Walk([], true)
      else
        var rest := WalkItems(items, i + 1);
        assert item.key == item.key[..KeyPrefixLength] + item.key[KeyPrefixLength..];
        Walk([Row(i, item.key[KeyPrefixLength..], item.title, item.template)] + rest.rows, rest.panicked)
  }

  /** `toutTv`: fetch and check the presentation, decode it, then walk the
      items of the first "single" lineup only. A response without such a
      lineup prints nothing. */
  function TouTv(env: Env, showName: string): (r: Result<Walk, Error>)
    ensures env.web(PresQuery(showName)).None? ==> r == Failure(NetworkError)
    ensures env.web(PresQuery(showName)).Some? && env.web(PresQuery(showName)).value.status != 200 ==>
              r == Failure(StatusError(env.web(PresQuery(showName)).value.status))
    ensures r.Success? ==>
              && env.web(PresQuery(showName)).Some?
              && env.web(PresQuery(showName)).value.status == 200
              && env.decodePresentation(env.web(PresQuery(showName)).value.body).Some?
    ensures r.Success? ==>
              var lineups := env.decodePresentation(env.web(PresQuery(showName)).value.body).value.seasonLineups;
              && (r.value.rows != [] || r.value.panicked ==> exists k :: FirstWalked(lineups, k))
              && forall k | FirstWalked(lineups, k) :: r.value == WalkItems(lineups[k].items, 0)
  {
    var body :- Get(env, PresQuery(showName));
    match env.decodePresentation(body)
    case None => Failure(DecodeError)
    case Some(pres) =>
      match FirstNamed(pres.seasonLineups, SingleLineup)
      case None => Success(Walk([], false))
      case Some(k) =>
        assert FirstWalked(pres.seasonLineups, k);
        Success(WalkItems(pres.seasonLineups[k].items, 0))
  }

  /** Only the first "single" lineup is walked: lineups after it, and any
      later lineup of the same name, never influence the result. */
  lemma OnlyFirstSingleWalked(env: Env, showName: string, res: Response,
                              pres: Presentation, k: nat)
    requires env.web(PresQuery(showName)) == Some(res) && res.status == 200
    requires env.decodePresentation(res.body) == Some(pres)
    requires k < |pres.seasonLineups| && pres.seasonLineups[k].name == SingleLineup
    requires forall j | 0 <= j < k :: pres.seasonLineups[j].name != SingleLineup
    ensures TouTv(env, showName) == Success(WalkItems(pres.seasonLineups[k].items, 0))
  {
  }

  /** A status other than 200 ends the walk before anything is decoded. */
  lemma TouTvStatusError(env: Env, other: Env, showName: string, res: Response)
    requires env.web(PresQuery(showName)) == Some(res) && res.status != 200
    ensures TouTv(env, showName) == Failure(StatusError(res.status))
    ensures TouTv(other.(web := env.web), showName) == TouTv(env, showName)
  {
  }

  /** A presentation that does not decode is fatal; one without a "single"
      lineup prints nothing. */
  lemma TouTvWithoutSingle(env: Env, showName: string, res: Response)
    requires env.web(PresQuery(showName)) == Some(res) && res.status == 200
    ensures env.decodePresentation(res.body).None? ==> TouTv(env, showName) == Failure(DecodeError)
    ensures env.decodePresentation(res.body).Some? &&
            (forall l | l in env.decodePresentation(res.body).value.seasonLineups :: l.name != SingleLineup)
            ==> TouTv(env, showName) == Success(Walk([], false))
  {
    if env.decodePresentation(res.body).Some? {
      var lineups := env.decodePresentation(res.body).value.seasonLineups;
      assert forall j | 0 <= j < |lineups| :: lineups[j] in lineups;
    }
  }
}
