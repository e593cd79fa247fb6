/**
 * The `/search` route (app.py:23-42): validate the `query` form field, ask
 * the catalog provider for songs and flatten each song's artist list into
 * one display string.  The provider is a parameter: a function from the
 * query text to its reply.
 */
module Search {
  import opened Wrappers
  import opened Text

  /** One song record as the catalog provider returns it (only the keys the route reads). */
  datatype ProviderSong = ProviderSong(videoId: string, title: string, artists: seq<string>)

  /** The provider either returns its result list or raises. */
  datatype ProviderReply = Found(results: seq<ProviderSong>) | Raised(message: string)

  /** One entry of the JSON `results` list. */
  datatype Song = Song(videoId: string, title: string, artist: string)

  datatype SearchResponse =
    | QueryRequired           // {'error': 'Query is required'}, 400
    | SearchFailed            // {'error': 'Failed to search songs'}, 500
    | Results(songs: seq<Song>)
  {
    function Code(): int {
      match this
      case QueryRequired => 400
      case SearchFailed => 500
      case Results(_) => 200
    }
  }

  const ArtistSeparator: string := ", "

  /** The text that is searched for: the form field with surrounding white space removed, `''` when absent. */
  function Query(field: Option<string>): string {
    Strip(field.GetOr(""))
  }

  function ToSong(s: ProviderSong): Song {
    Song(s.videoId, s.title, Join(s.artists, ArtistSeparator))
  }

  /** The comprehension over the provider's results: same length, same order, one song per record. */
  function ToSongs(results: seq<ProviderSong>): (r: seq<Song>)
    ensures |r| == |results|
    ensures forall i :: 0 <= i < |results| ==>
      r[i].videoId == results[i].videoId && r[i].title == results[i].title
      && r[i].artist == Join(results[i].artists, ArtistSeparator)
  {
    if results == [] then [] else [ToSong(results[0])] + ToSongs(results[1..])
  }

  /** The whole route. */
  function Search(field: Option<string>, provider: string -> ProviderReply): (r: SearchResponse)
    ensures r == QueryRequired <==> IsBlank(field.GetOr(""))
    ensures r.Code() == 400 <==> r == QueryRequired
    ensures r != QueryRequired ==>
      match provider(Query(field))
      case Raised(_) => r == SearchFailed
      case Found(results) => r == Results(ToSongs(results))
  {
    var query := Query(field);
    if query == "" then QueryRequired
    else
      match provider(query)
      case Raised(_) => SearchFailed
      case Found(results) => Results(ToSongs(results))
  }

  /** A blank query is answered without consulting the provider: any two providers give the same reply. */
  lemma BlankQueryNeedsNoProvider(field: Option<string>, p1: string -> ProviderReply, p2: string -> ProviderReply)
    requires IsBlank(field.GetOr(""))
    ensures Search(field, p1) == Search(field, p2) == QueryRequired
  {
  }

  /** The searched text is the field without its padding. */
  lemma QueryIgnoresPadding(a: string, q: string, b: string)
    requires IsBlank(a) && IsBlank(b) && Unpadded(q)
    ensures Query(Some(a + q + b)) == q
  {
    StripPadding(a, q, b);
  }

  /** The reply depends on the form field only through the searched text. */
  lemma SearchDependsOnQuery(f1: Option<string>, f2: Option<string>, provider: string -> ProviderReply)
    requires Query(f1) == Query(f2)
    ensures Search(f1, provider) == Search(f2, provider)
  {
  }

  /**
   * A query is searched with its padding removed: padding the same text with
   * white space on either side gives the same reply.
   */
  lemma PaddingIsIgnored(a: string, q: string, b: string, provider: string -> ProviderReply)
    requires IsBlank(a) && IsBlank(b) && Unpadded(q)
    ensures Search(Some(a + q + b), provider) == Search(Some(q), provider)
  {
    QueryIgnoresPadding(a, q, b);
    assert [] + q + [] == q;
    QueryIgnoresPadding([], q, []);
    SearchDependsOnQuery(Some(a + q + b), Some(q), provider);
  }

  /**
   * The artist string of a song splits back into the provider's artist
   * names, when there is at least one and none contains a comma.
   */
  lemma ArtistsRecoverable(s: ProviderSong)
    requires |s.artists| >= 1
    requires forall i :: 0 <= i < |s.artists| ==> Excludes(s.artists[i], ',')
    ensures Split(ToSong(s).artist, ArtistSeparator) == s.artists
  {
    SplitJoin(s.artists, ArtistSeparator);
  }

  /** The joined artist strings for zero, one and two artists. */
  lemma ArtistExamples()
    ensures Join([], ArtistSeparator) == ""
    ensures Join(["A"], ArtistSeparator) == "A"
    ensures Join(["A", "B"], ArtistSeparator) == "A, B"
  {
  }
}
