/** internal/shikimori.go: the catalogue lookup that turns a manga's name into metadata.

    The HTTP round trip and the JSON decoding are not modelled: the catalogue is a
    function from the search text to the reply it gives, already decoded. */
module Shikimori {
  import opened Base
  import GoStrings
  import Utils

  /** The metadata written into every packaged volume. */
  datatype Metadata = Metadata(
    title: string,
    author: string,
    description: string,
    genres: string,
    url: string,
    coverUrl: string)

  /** One element of the catalogue's JSON answer, with the fields the converter reads. */
  datatype Record = Record(
    name: string,
    russian: string,
    url: string,
    imageOriginal: string,
    description: string,
    genres: seq<string>)

  /** The body of a 200 answer: either it does not decode as a list of records, or it does. */
  datatype Body = Malformed | Results(records: seq<Record>)

  /** What the catalogue does with a search: no answer at all (the request fails), or an
      HTTP status with a body. */
  datatype Reply = Unreachable | Answered(status: int, body: Body)

  /** The ways FetchMetadata fails. */
  datatype FetchError =
    | RequestFailed
    | BadStatus(status: int)
    | DecodeFailed
    | NotFound

  /** The catalogue: what it answers to each search text. */
  type Catalogue = string -> Reply

  /** The site every relative link of the catalogue is resolved against. */
  const Site: string := "https://shikimori.one"

  /** The separator between genres. */
  const GenreSeparator: string := ", "

  /** The search text: the name with every underscore turned back into a space. */
  function SearchQuery(name: string): (q: string)
    ensures |q| == |name|
    ensures '_' !in q
    ensures forall i :: 0 <= i < |name| && name[i] != '_' ==> q[i] == name[i]
    ensures forall i :: 0 <= i < |name| && name[i] == '_' ==> q[i] == ' '
  {
    GoStrings.ReplaceAll(name, '_', ' ')
  }

  /** The search undoes SafeName on names that held no underscore of their own. */
  lemma SearchQueryUndoesSafeName(name: string)
    requires '_' !in name
    ensures SearchQuery(Utils.SafeName(name)) == name
  {
    var safe := Utils.SafeName(name);
    assert forall i :: 0 <= i < |name| ==> SearchQuery(safe)[i] == name[i];
  }

  /** The metadata taken from the first record: the Russian title, no author, the
      description, the genres joined by ", " and both links made absolute. */
  function FromRecord(r: Record): (m: Metadata)
    ensures m.title == r.russian && m.author == "" && m.description == r.description
    ensures m.genres == GoStrings.Join(r.genres, GenreSeparator)
    ensures GoStrings.HasPrefix(m.url, Site) && m.url[|Site|..] == r.url
    ensures GoStrings.HasPrefix(m.coverUrl, Site) && m.coverUrl[|Site|..] == r.imageOriginal
  {
    assert (Site + r.url)[|Site|..] == r.url;
    assert (Site + r.imageOriginal)[|Site|..] == r.imageOriginal;
    Metadata(r.russian, "", r.description, GoStrings.Join(r.genres, GenreSeparator),
      Site + r.url, Site + r.imageOriginal)
  }

  /** The genres of the metadata read back as the record's genre list, when no genre is
      empty or holds a comma. */
  lemma FromRecordGenres(r: Record)
    requires forall i :: 0 <= i < |r.genres| ==> ',' !in r.genres[i] && r.genres[i] != ""
    ensures SplitGenres(FromRecord(r).genres) == r.genres
  {
    GenresRoundTrip(r.genres);
  }

  /** FetchMetadata: the metadata of the first search result, or why there is none. */
  function FetchMetadata(name: string, catalogue: Catalogue): (r: Result<Metadata, FetchError>)
    ensures var reply := catalogue(SearchQuery(name));
      && (reply.Unreachable? <==> r == Err(RequestFailed))
      && (reply.Answered? && reply.status != 200 <==> r.Err? && r.error.BadStatus?)
      && (reply.Answered? && reply.status != 200 ==> r == Err(BadStatus(reply.status)))
      && (reply == Answered(200, Malformed) <==> r == Err(DecodeFailed))
      && (reply == Answered(200, Results([])) <==> r == Err(NotFound))
      && (r.Ok? <==> reply.Answered? && reply.status == 200 && reply.body.Results? && reply.body.records != [])
  {
    match catalogue(SearchQuery(name))
    case Unreachable => Err(RequestFailed)
    case Answered(status, body) =>
      if status != 200 then Err(BadStatus(status))
      else
        match body
        case Malformed => Err(DecodeFailed)
        case Results(records) =>
          if |records| == 0 then Err(NotFound)
          else Ok(FromRecord(records[0]))
  }

  /** The record of the package's own test. */
  function TestRecord(): Record {
    Record("", "Боевая классика", "/mangas/42", "/covers/42.jpg", "Epic.", ["Action", "Adventure"])
  }

  /** The catalogue's answer of the package's own test: the first record's Russian title,
      its links made absolute and its genres joined by a comma and a space. */
  lemma FetchMetadataExample(name: string, catalogue: Catalogue, rest: seq<Record>)
    requires catalogue(SearchQuery(name)) == Answered(200, Results([TestRecord()] + rest))
    ensures FetchMetadata(name, catalogue) == Ok(Metadata("Боевая классика", "", "Epic.", "Action, Adventure",
      "https://shikimori.one/mangas/42", "https://shikimori.one/covers/42.jpg"))
  {
    assert ([TestRecord()] + rest)[0] == TestRecord();
    assert FetchMetadata(name, catalogue) == Ok(FromRecord(TestRecord()));
    TestRecordMetadata();
  }

  /** The metadata of the test record. */
  lemma TestRecordMetadata()
    ensures FromRecord(TestRecord()) == Metadata("Боевая классика", "", "Epic.", "Action, Adventure",
      "https://shikimori.one/mangas/42", "https://shikimori.one/covers/42.jpg")
  {
    var gs := TestRecord().genres;
    assert GoStrings.Join(gs[1..], GenreSeparator) == "Adventure";
    assert GoStrings.Join(gs, GenreSeparator) == "Action" + ", " + "Adventure";
    assert Site + "/mangas/42" == "https://shikimori.one/mangas/42";
    assert Site + "/covers/42.jpg" == "https://shikimori.one/covers/42.jpg";
  }

  /** Only the first result matters: whatever follows it does not change the metadata. */
  lemma FetchUsesFirstResult(name: string, catalogue: Catalogue, other: Catalogue, first: Record,
                             rest: seq<Record>, rest': seq<Record>)
    requires catalogue(SearchQuery(name)) == Answered(200, Results([first] + rest))
    requires other(SearchQuery(name)) == Answered(200, Results([first] + rest'))
    ensures FetchMetadata(name, catalogue) == FetchMetadata(name, other) == Ok(FromRecord(first))
  {
  }

  // ---------------------------------------------------------------------------
  // Reading the genre list back

  /** Drops the one space the separator put before a genre. */
  function DropSpace(s: string): string {
    if s != [] && s[0] == ' ' then s[1..] else s
  }

  /** The genre list a joined genre string came from: split at the commas, and the
      space after each comma dropped. */
  function SplitGenres(s: string): seq<string> {
    if s == "" then []
    else
      var parts := GoStrings.Split(s, ',');
      [parts[0]] + seq(|parts| - 1, i requires 0 <= i < |parts| - 1 => DropSpace(parts[i + 1]))
  }

  /** Each genre after the first, as the comma split sees it: behind a space. */
  function Spaced(gs: seq<string>): seq<string> {
    seq(|gs|, i requires 0 <= i < |gs| => " " + gs[i])
  }

  /** Splitting the joined genres at the commas gives the first genre and then every
      other one behind its space. */
  lemma {:induction false} SplitJoinedGenres(gs: seq<string>)
    requires |gs| >= 1
    requires forall i :: 0 <= i < |gs| ==> ',' !in gs[i]
    ensures GoStrings.Split(GoStrings.Join(gs, GenreSeparator), ',') == [gs[0]] + Spaced(gs[1..])
  {
    if |gs| == 1 {
      GoStrings.SplitNoSeparator(gs[0], ',');
    } else {
      var tail := GoStrings.Join(gs[1..], GenreSeparator);
      SplitJoinedGenres(gs[1..]);
      assert GoStrings.Join(gs, GenreSeparator) == gs[0] + [','] + ([' '] + tail);
      GoStrings.SplitAfterSeparator(gs[0], ',', [' '] + tail);
      var parts := GoStrings.Split(tail, ',');
      assert ([' '] + tail)[1..] == tail;
      assert GoStrings.Split([' '] + tail, ',') == [[' '] + parts[0]] + parts[1..];
      assert Spaced(gs[1..]) == [" " + gs[1]] + Spaced(gs[2..]);
      assert parts[1..] == Spaced(gs[2..]) by {
        assert gs[1..][1..] == gs[2..];
      }
    }
  }

  /** The genres survive being joined: reading them back gives the list, when no genre
      is empty or holds a comma. */
  lemma GenresRoundTrip(gs: seq<string>)
    requires forall i :: 0 <= i < |gs| ==> ',' !in gs[i] && gs[i] != ""
    ensures SplitGenres(GoStrings.Join(gs, GenreSeparator)) == gs
  {
    if gs != [] {
      var joined := GoStrings.Join(gs, GenreSeparator);
      SplitJoinedGenres(gs);
      JoinStartsWithFirst(gs, GenreSeparator);
      SplitGenresParts(joined);
      var parts := [gs[0]] + Spaced(gs[1..]);
      var back := SplitGenres(joined);
      forall i | 0 < i < |gs|
        ensures back[i] == gs[i]
      {
        assert parts[i] == Spaced(gs[1..])[i - 1];
        assert DropSpace(" " + gs[i]) == gs[i];
      }
    }
  }

  /** A joined list begins with its first element. */
  lemma JoinStartsWithFirst(gs: seq<string>, sep: string)
    requires gs != []
    ensures |GoStrings.Join(gs, sep)| >= |gs[0]|
  {
  }

  /** The pieces SplitGenres returns for a non-empty text. */
  lemma SplitGenresParts(s: string)
    requires s != ""
    ensures var parts := GoStrings.Split(s, ',');
      && |SplitGenres(s)| == |parts|
      && SplitGenres(s)[0] == parts[0]
      && forall i :: 0 < i < |parts| ==> SplitGenres(s)[i] == DropSpace(parts[i])
  {
  }
}
