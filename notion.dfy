/**
 * The blog's Notion data access: normalising the configured database id,
 * recognising full page objects among query results, listing published posts,
 * looking a post up by slug, and turning client failures into the errors the
 * blog raises. The Notion client is a function from a query to its results or
 * to the value it throws.
 */
module Notion {
  import opened Wrappers
  import opened JsText
  import opened NotionTypes
  import Seqs

  // Database ids

  predicate IsHexDigit(c: char) {
    ('0' <= c <= '9') || ('a' <= c <= 'f') || ('A' <= c <= 'F')
  }

  /** The number of hex digits in a Notion id. */
  const IdDigits: nat := 32

  predicate AllHex(s: string) {
    forall k :: 0 <= k < |s| ==> IsHexDigit(s[k])
  }

  /** Whether `/[a-f0-9]{32}/i` matches `s` at position `i`. */
  predicate HexRunAt(s: string, i: nat) {
    i + IdDigits <= |s| && AllHex(s[i..i + IdDigits])
  }

  /** Whether `s` contains 32 consecutive hex digits anywhere. */
  ghost predicate HasHexRun(s: string) {
    exists i: nat :: HexRunAt(s, i)
  }

  /** The leftmost position at or after `from` where `/[a-f0-9]{32}/i` matches. */
  function FirstHexRun(s: string, from: nat): (r: Option<nat>)
    ensures r.Some? ==> from <= r.value && HexRunAt(s, r.value)
    ensures r.Some? ==> forall j: nat :: from <= j < r.value ==> !HexRunAt(s, j)
    ensures r.None? ==> forall j: nat :: from <= j ==> !HexRunAt(s, j)
    decreases |s| - from
  {
    if from + IdDigits > |s| then None
    else if HexRunAt(s, from) then Some(from)
    else FirstHexRun(s, from + 1)
  }

  /** The 8-4-4-4-12 layout of section 3 of RFC 4122 for 32 hex digits. */
  function FormatUuid(u: string): (r: string)
    requires |u| == IdDigits
    ensures |r| == 36
    ensures r[8] == '-' && r[13] == '-' && r[18] == '-' && r[23] == '-'
  {
    u[..8] + "-" + u[8..12] + "-" + u[12..16] + "-" + u[16..20] + "-" + u[20..32]
  }

  /** The text of a 36-character id with its four separators removed. */
  function Dehyphenate(r: string): string
    requires |r| == 36
  {
    r[..8] + r[9..13] + r[14..18] + r[19..23] + r[24..]
  }

  /** Whether `r` has the RFC 4122 text layout: hex digits with hyphens at 8, 13, 18 and 23. */
  predicate IsUuidLayout(r: string) {
    |r| == 36 && r[8] == '-' && r[13] == '-' && r[18] == '-' && r[23] == '-'
    && AllHex(Dehyphenate(r))
  }

  /** Formatting inserts the hyphens and keeps every digit, case included. */
  lemma FormatUuidRoundTrip(u: string)
    requires |u| == IdDigits
    ensures Dehyphenate(FormatUuid(u)) == u
    ensures AllHex(u) ==> IsUuidLayout(FormatUuid(u))
  {
    var r := FormatUuid(u);
    assert r[..8] == u[..8];
    assert r[9..13] == u[8..12];
    assert r[14..18] == u[12..16];
    assert r[19..23] == u[16..20];
    assert r[24..] == u[20..32];
    assert u == u[..8] + u[8..12] + u[12..16] + u[16..20] + u[20..32];
  }

  /** What the client throws: an object, possibly with a `code`, or any other value. */
  datatype Thrown =
    | ObjectError(code: Option<string>, message: string)   // an object thrown by the client
    | OtherThrown(message: string)                          // any other thrown value

  /** The errors the data-access functions end with. */
  datatype Error =
    | MissingDatabaseId            // the configured id is missing or empty
    | DatabaseNotFound(databaseId: string)
    | Rethrown(cause: Thrown)

  /**
   * `normalizeDatabaseId`: rejects a missing or empty id, reformats the leftmost
   * run of 32 hex digits as a hyphenated UUID, and otherwise trims the id.
   */
  function NormalizeDatabaseId(id: Option<string>): (r: Result<string, Error>)
    ensures r.Err? <==> id == None || id == Some("")
    ensures r.Err? ==> r.error == MissingDatabaseId
  {
    match id
    case None => Err(MissingDatabaseId)
    case Some(s) =>
      if s == "" then Err(MissingDatabaseId)
      else match FirstHexRun(s, 0)
        case Some(i) => Ok(FormatUuid(s[i..i + IdDigits]))
        case None => Ok(Trim(s))
  }

  /** An id with 32 consecutive hex digits becomes the leftmost such run, in UUID layout. */
  lemma NormalizeExtractsLeftmostRun(s: string, i: nat)
    requires HexRunAt(s, i)
    requires forall j: nat :: j < i ==> !HexRunAt(s, j)
    ensures NormalizeDatabaseId(Some(s)).Ok?
    ensures IsUuidLayout(NormalizeDatabaseId(Some(s)).value)
    ensures Dehyphenate(NormalizeDatabaseId(Some(s)).value) == s[i..i + IdDigits]
  {
    assert FirstHexRun(s, 0) == Some(i);
    FormatUuidRoundTrip(s[i..i + IdDigits]);
  }

  /** An id without 32 consecutive hex digits is only trimmed. */
  lemma NormalizeTrimsOtherIds(s: string)
    requires s != "" && !HasHexRun(s)
    ensures NormalizeDatabaseId(Some(s)) == Ok(Trim(s))
  {
    var first := FirstHexRun(s, 0);
  }

  /** A whitespace-only id is not rejected: it normalises to the empty string. */
  lemma WhitespaceIdIsEmpty(s: string)
    requires s != "" && forall k :: 0 <= k < |s| ==> IsWhiteSpace(s[k])
    ensures NormalizeDatabaseId(Some(s)) == Ok("")
  {
    forall i: nat
      ensures !HexRunAt(s, i)
    {
      if i + IdDigits <= |s| {
        assert !IsHexDigit(s[i..i + IdDigits][0]);
      }
    }
    NormalizeTrimsOtherIds(s);
  }

  /** The hyphens of the UUID layout break every window of 32 characters. */
  lemma UuidLayoutHasNoHexRun(r: string)
    requires IsUuidLayout(r)
    ensures !HasHexRun(r)
  {
    forall i: nat
      ensures !HexRunAt(r, i)
    {
      if i + IdDigits <= |r| {
        assert r[i..i + IdDigits][23 - i] == '-';
      }
    }
  }

  /** A string inside a string without a hex run has none either. */
  lemma NoHexRunInSlice(s: string, a: nat, b: nat)
    requires a <= b <= |s| && !HasHexRun(s)
    ensures !HasHexRun(s[a..b])
  {
    forall i: nat
      ensures !HexRunAt(s[a..b], i)
    {
      if i + IdDigits <= b - a {
        var window, original := s[a..b][i..i + IdDigits], s[a + i..a + i + IdDigits];
        forall k | 0 <= k < IdDigits
          ensures window[k] == original[k]
        {
          assert window[k] == s[a..b][i + k] == s[a + i + k];
        }
        assert window == original;
        assert !HexRunAt(s, a + i);
      }
    }
  }

  /** An id already in UUID layout is returned unchanged. */
  lemma HyphenatedIdUnchanged(r: string)
    requires IsUuidLayout(r)
    ensures NormalizeDatabaseId(Some(r)) == Ok(r)
  {
    UuidLayoutHasNoHexRun(r);
    NormalizeTrimsOtherIds(r);
    UuidLayoutEndsWithDigits(r);
    TrimUnchanged(r);
  }

  lemma UuidLayoutEndsWithDigits(r: string)
    requires IsUuidLayout(r)
    ensures IsHexDigit(r[0]) && IsHexDigit(r[35])
    ensures !IsWhiteSpace(r[0]) && !IsWhiteSpace(r[35])
  {
    var d := Dehyphenate(r);
    assert d[0] == r[0] && d[31] == r[35];
  }

  /** Normalising a non-empty normalised id gives it back. */
  lemma NormalizeIdempotent(id: Option<string>)
    requires NormalizeDatabaseId(id).Ok? && NormalizeDatabaseId(id).value != ""
    ensures NormalizeDatabaseId(Some(NormalizeDatabaseId(id).value)) == NormalizeDatabaseId(id)
  {
    var s := id.value;
    var r := NormalizeDatabaseId(id).value;
    match FirstHexRun(s, 0)
    case Some(i) =>
      FormatUuidRoundTrip(s[i..i + IdDigits]);
      HyphenatedIdUnchanged(r);
    case None =>
      TrimSpec(s);
      NoHexRunInSlice(s, TrimOffset(s), TrimOffset(s) + |Trim(s)|);
      NormalizeTrimsOtherIds(r);
      TrimIdempotent(s);
  }

  // Query results

  /**
   * `isFullPageObject`: a page entry that carries its properties, which is then
   * exactly the entry of the page `AsPage` reads from it.
   */
  function IsFullPageObject(e: Entry): (r: bool)
    ensures r ==> e.properties.Some? && e == Entry("page", AsPage(e).id, Some(AsPage(e).properties))
    ensures !r ==> e.objectType != "page" || e.properties.None?
  {
    e.objectType == "page" && e.properties.Some?
  }

  /** A full page entry seen as a page object. */
  function AsPage(e: Entry): Page
    requires e.properties.Some?
  {
    Page(e.id, e.properties.value)
  }

  /** `results.filter(isFullPageObject)`, each kept entry seen as a page. */
  function FullPages(results: seq<Entry>): (r: seq<Page>)
    ensures |r| <= |results|
    ensures forall i :: 0 <= i < |results| && IsFullPageObject(results[i]) ==> AsPage(results[i]) in r
    ensures forall i :: 0 <= i < |r| ==> Entry("page", r[i].id, Some(r[i].properties)) in results
  {
    if results == [] then []
    else
      var init, last := results[..|results| - 1], results[|results| - 1];
      var pages := FullPages(init);
      assert forall i :: 0 <= i < |pages| ==> Entry("page", pages[i].id, Some(pages[i].properties)) in init;
      pages + (if IsFullPageObject(last) then [AsPage(last)] else [])
  }

  /** The pages are the filtered entries, one for one and in order. */
  lemma {:induction false} FullPagesInOrder(results: seq<Entry>)
    ensures |FullPages(results)| == |Seqs.Filter(results, IsFullPageObject)|
    ensures forall k :: 0 <= k < |FullPages(results)| ==>
      Seqs.Filter(results, IsFullPageObject)[k].properties.Some?
      && FullPages(results)[k] == AsPage(Seqs.Filter(results, IsFullPageObject)[k])
  {
    if results != [] {
      var init, last := results[..|results| - 1], results[|results| - 1];
      FullPagesInOrder(init);
      var pages, kept := FullPages(init), Seqs.Filter(init, IsFullPageObject);
      assert FullPages(results) == pages + (if IsFullPageObject(last) then [AsPage(last)] else []);
      assert Seqs.Filter(results, IsFullPageObject) == kept + (if IsFullPageObject(last) then [last] else []);
    }
  }

  /** A database query: the database and, for a lookup, the slug the `slug` property must equal. */
  datatype Query = Query(databaseId: string, slugEquals: Option<string>)

  /** The Notion client's `databases.query`: the results, or the value it throws. */
  type Client = Query -> Result<seq<Entry>, Thrown>

  /** The catch blocks: `object_not_found` names the database, anything else is rethrown. */
  function MapQueryError(databaseId: string, e: Thrown): (r: Error)
    ensures r.DatabaseNotFound? <==> e.ObjectError? && e.code == Some("object_not_found")
    ensures r.DatabaseNotFound? ==> r.databaseId == databaseId
    ensures !r.DatabaseNotFound? ==> r == Rethrown(e)
  {
    if e.ObjectError? && e.code == Some("object_not_found") then DatabaseNotFound(databaseId)
    else Rethrown(e)
  }

  const NotFoundPrefix: string := "Notion 데이터베이스를 찾을 수 없습니다 (ID: "

  /** The first line of the diagnostic raised for a database the integration cannot see. */
  function NotFoundHeadline(databaseId: string): (r: string)
    ensures |NotFoundPrefix| + |databaseId| <= |r|
    ensures r[|NotFoundPrefix|..|NotFoundPrefix| + |databaseId|] == databaseId
  {
    NotFoundPrefix + databaseId + ")."
  }

  /** `getPublishedPosts`: every full page of the unfiltered query, in query order. */
  function GetPublishedPosts(databaseIdSetting: Option<string>, client: Client): (r: Result<seq<Page>, Error>)
    ensures NormalizeDatabaseId(databaseIdSetting).Err? ==> r == Err(MissingDatabaseId)
    ensures NormalizeDatabaseId(databaseIdSetting).Ok?
      && client(Query(NormalizeDatabaseId(databaseIdSetting).value, None)).Ok?
      ==> r == Ok(FullPages(client(Query(NormalizeDatabaseId(databaseIdSetting).value, None)).value))
    ensures r.Ok? ==> (NormalizeDatabaseId(databaseIdSetting).Ok?
      && client(Query(NormalizeDatabaseId(databaseIdSetting).value, None)).Ok?
      && r.value == FullPages(client(Query(NormalizeDatabaseId(databaseIdSetting).value, None)).value))
    ensures NormalizeDatabaseId(databaseIdSetting).Ok?
      && client(Query(NormalizeDatabaseId(databaseIdSetting).value, None)).Err?
      ==> r == Err(MapQueryError(NormalizeDatabaseId(databaseIdSetting).value,
                                 client(Query(NormalizeDatabaseId(databaseIdSetting).value, None)).error))
  {
    match NormalizeDatabaseId(databaseIdSetting)
    case Err(e) => Err(e)
    case Ok(databaseId) =>
      match client(Query(databaseId, None))
      case Ok(results) => Ok(FullPages(results))
      case Err(thrown) => Err(MapQueryError(databaseId, thrown))
  }

  /** `getPostBySlug`: the first full page whose `slug` equals the trimmed slug, if any. */
  function GetPostBySlug(slug: string, databaseIdSetting: Option<string>, client: Client): (r: Result<Option<Page>, Error>)
    ensures Trim(slug) == "" ==> r == Ok(None)
    ensures Trim(slug) != "" && NormalizeDatabaseId(databaseIdSetting).Err? ==> r == Err(MissingDatabaseId)
    ensures r.Ok? && r.value.Some? ==> (Trim(slug) != ""
      && NormalizeDatabaseId(databaseIdSetting).Ok?
      && client(Query(NormalizeDatabaseId(databaseIdSetting).value, Some(Trim(slug)))).Ok?
      && Entry("page", r.value.value.id, Some(r.value.value.properties))
         in client(Query(NormalizeDatabaseId(databaseIdSetting).value, Some(Trim(slug)))).value)
  {
    var normalizedSlug := Trim(slug);
    if normalizedSlug == "" then Ok(None)
    else
      match NormalizeDatabaseId(databaseIdSetting)
      case Err(e) => Err(e)
      case Ok(databaseId) =>
        match client(Query(databaseId, Some(normalizedSlug)))
        case Ok(results) =>
          (match Seqs.FindIndex(results, IsFullPageObject)
           case Some(i) => Ok(Some(AsPage(results[i])))
           case None => Ok(None))
        case Err(thrown) => Err(MapQueryError(databaseId, thrown))
  }

  /** A blank slug is answered without reading the setting or calling the client. */
  lemma BlankSlugSkipsQuery(slug: string, setting1: Option<string>, client1: Client, setting2: Option<string>, client2: Client)
    requires Trim(slug) == ""
    ensures GetPostBySlug(slug, setting1, client1) == GetPostBySlug(slug, setting2, client2) == Ok(None)
  {
  }

  /** The post found by slug is the head of the full pages the query returned. */
  lemma PostBySlugIsFirstFullPage(slug: string, databaseIdSetting: Option<string>, client: Client)
    requires Trim(slug) != "" && NormalizeDatabaseId(databaseIdSetting).Ok?
    requires client(Query(NormalizeDatabaseId(databaseIdSetting).value, Some(Trim(slug)))).Ok?
    ensures var pages := FullPages(client(Query(NormalizeDatabaseId(databaseIdSetting).value, Some(Trim(slug)))).value);
      GetPostBySlug(slug, databaseIdSetting, client) == Ok(if pages == [] then None else Some(pages[0]))
  {
    var results := client(Query(NormalizeDatabaseId(databaseIdSetting).value, Some(Trim(slug)))).value;
    Seqs.FindIsFirstOfFilter(results, IsFullPageObject);
    FullPagesInOrder(results);
  }

  /** A client failure ends the lookup with the mapped error. */
  lemma PostBySlugMapsErrors(slug: string, databaseIdSetting: Option<string>, client: Client)
    requires Trim(slug) != "" && NormalizeDatabaseId(databaseIdSetting).Ok?
    requires client(Query(NormalizeDatabaseId(databaseIdSetting).value, Some(Trim(slug)))).Err?
    ensures GetPostBySlug(slug, databaseIdSetting, client)
      == Err(MapQueryError(NormalizeDatabaseId(databaseIdSetting).value,
                           client(Query(NormalizeDatabaseId(databaseIdSetting).value, Some(Trim(slug)))).error))
  {
  }
}
