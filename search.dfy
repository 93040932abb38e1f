/** The student search page (assets/js/search.js): initials for the avatar,
    the call to the search API and the shapes of its answer, what one result
    card shows, and which of the page's panels is visible after a search. */
module Search {
  import opened Wrappers
  import opened Text
  import opened Json
  import opened Http
  import Uri

  const SearchHost := "api.ryzumi.vip"
  const SearchApi := "https://" + SearchHost + "/api/search/mahasiswa"
  const AisPhotoUrl := "https://ais.unmul.ac.id/file/foto/"
  const DefaultErrorMessage := "Gagal memuat data. Silakan coba lagi nanti."

  /** JavaScript's `value || fallback` on a string-valued field: a missing
      field and the empty string both fall back. */
  function OrElse(v: Option<string>, fallback: string): (r: string)
    ensures v.Some? && v.value != "" ==> r == v.value
    ensures v.None? || v.value == "" ==> r == fallback
    ensures r == "" ==> fallback == ""
  {
    if v.Some? && v.value != "" then v.value else fallback
  }

  // ---------------------------------------------------------------------
  // Initials
  // ---------------------------------------------------------------------

  /** `getInitials(name)`: "?" for a missing or empty name; otherwise the
      initials of the trimmed name. */
  function GetInitials(name: Option<string>): (r: string)
    ensures name.None? || name.value == "" ==> r == "?"
    ensures |r| <= 2
  {
    if name.None? || name.value == "" then "?" else InitialsOfWords(Trim(name.value))
  }

  /** The name is split at single spaces and the first character of the
      first piece, followed by that of the last piece when there are several,
      is upper-cased. */
  function InitialsOfWords(t: string): (r: string)
    ensures |r| <= 2
  {
    var words := Split(t, ' ');
    if |words| == 1 then Upper(CharAt0(words[0]))
    else Upper(CharAt0(words[0]) + CharAt0(words[|words| - 1]))
  }

  /** What `GetInitials` gives for a non-empty name, stated on the trimmed
      name `t` without reference to splitting: nothing at all when the name
      is only white space, the upper-cased first character when `t` has no
      space, and otherwise the upper-cased first character and the character
      just after the last space. */
  lemma GetInitialsOfName(name: string)
    requires name != ""
    ensures var t := Trim(name);
      var k := LastIndexOf(t, ' ');
      && (t == [] ==> GetInitials(Some(name)) == [])
      && (t != [] && k == -1 ==> GetInitials(Some(name)) == [UpperChar(t[0])])
      && (k >= 0 ==> k + 1 < |t| && GetInitials(Some(name)) == [UpperChar(t[0]), UpperChar(t[k + 1])])
  {
    var t := Trim(name);
    var k := LastIndexOf(t, ' ');
    LastIndexOfAbsent(t, ' ');
    if t == [] {
      InitialsOfNoSpace(t);
    } else if k == -1 {
      InitialsOfNoSpace(t);
    } else {
      assert IsJsSpace(t[k]);
      InitialsOfSpaced(t);
    }
  }

  lemma InitialsOfNoSpace(t: string)
    requires ' ' !in t
    ensures InitialsOfWords(t) == Upper(CharAt0(t))
  {
    SplitFree(t, ' ');
  }

  lemma InitialsOfSpaced(t: string)
    requires ' ' in t
    requires t[0] != ' ' && t[|t| - 1] != ' '
    ensures var k := LastIndexOf(t, ' ');
      k + 1 < |t| && InitialsOfWords(t) == [UpperChar(t[0]), UpperChar(t[k + 1])]
  {
    var k := LastIndexOf(t, ' ');
    SpacedWords(t);
    InitialsOfPieces(t);
    assert CharAt0(Split(t, ' ')[0]) + CharAt0(LastPiece(t, ' ')) == [t[0], t[k + 1]];
    UpperPair(t[0], t[k + 1]);
  }

  lemma InitialsOfPieces(t: string)
    requires |Split(t, ' ')| > 1
    ensures InitialsOfWords(t) == Upper(CharAt0(Split(t, ' ')[0]) + CharAt0(LastPiece(t, ' ')))
  {
  }

  lemma UpperPair(a: char, b: char)
    ensures Upper([a, b]) == [UpperChar(a), UpperChar(b)]
  {
  }

  /** The first and last words of a string with a space that neither
      starts nor ends it. */
  lemma SpacedWords(t: string)
    requires ' ' in t
    requires t[0] != ' ' && t[|t| - 1] != ' '
    ensures var k := LastIndexOf(t, ' ');
      && |Split(t, ' ')| > 1 && k + 1 < |t|
      && Split(t, ' ')[0] != [] && Split(t, ' ')[0][0] == t[0]
      && LastPiece(t, ' ') == t[k + 1..]
  {
    SplitFirst(t, ' ');
    SplitLast(t, ' ');
    SplitCount(t, ' ');
    LastIndexOfAbsent(t, ' ');
  }

  // ---------------------------------------------------------------------
  // The search API
  // ---------------------------------------------------------------------

  /** The request URL: the API address with the encoded query as its only
      parameter. */
  function SearchUrl(query: string): (url: string)
    ensures SearchApi + "?query=" <= url
    ensures |url| >= |SearchApi| + 7 + |query|
  {
    SearchApi + "?query=" + Uri.EncodeURIComponent(query)
  }

  /** Nothing of the query is lost: different queries give different
      request URLs. */
  lemma SearchUrlInjective(q1: string, q2: string)
    requires SearchUrl(q1) == SearchUrl(q2)
    ensures q1 == q2
  {
    var base := SearchApi + "?query=";
    assert Uri.EncodeURIComponent(q1) == SearchUrl(q1)[|base|..];
    assert Uri.EncodeURIComponent(q2) == SearchUrl(q2)[|base|..];
    Uri.EncodeInjective(q1, q2);
  }

  /** Whatever the query holds, it stays inside the one `query` parameter:
      after the fixed `?query=` nothing can end the parameter (`&`), start a
      fragment (`#`) or another query (`?`), or add a path (`/`). */
  lemma SearchUrlHoldsOneParameter(query: string)
    ensures var url := SearchUrl(query);
      && url[..|SearchApi| + 7] == SearchApi + "?query="
      && forall i | |SearchApi| + 7 <= i < |url| ::
           url[i] != '&' && url[i] != '#' && url[i] != '?' && url[i] != '/' && url[i] != '='
  {
    var e := Uri.EncodeURIComponent(query);
    var head := SearchApi + "?query=";
    var url := SearchUrl(query);
    assert url == head + e && |head| == |SearchApi| + 7;
    forall i | |head| <= i < |url|
      ensures url[i] != '&' && url[i] != '#' && url[i] != '?' && url[i] != '/' && url[i] != '='
    {
      assert url[i] == e[i - |head|];
      assert Uri.IsEncodedChar(e[i - |head|]);
    }
  }

  /** The answer shapes the page accepts, in this order: a bare array; an
      object with an array under `data`; an object with an array under
      `mahasiswa`; anything else means no results. */
  function NormalizeResults(data: JsonValue): (r: seq<JsonValue>)
    ensures data.JArray? ==> r == data.items
    ensures !data.JArray? && ArrayField(data, "data").Some? ==> r == ArrayField(data, "data").value
    ensures !data.JArray? && ArrayField(data, "data").None? && ArrayField(data, "mahasiswa").Some?
      ==> r == ArrayField(data, "mahasiswa").value
    ensures r != [] ==> data.JArray? || ArrayField(data, "data").Some? || ArrayField(data, "mahasiswa").Some?
  {
    if data.JArray? then data.items
    else if ArrayField(data, "data").Some? then ArrayField(data, "data").value
    else if ArrayField(data, "mahasiswa").Some? then ArrayField(data, "mahasiswa").value
    else []
  }

  /** `searchMahasiswa(query)` as search.js defines it: one request to the
      API; a rejected request, a status outside 200-299 or a body that is
      not JSON is an error (the status error names the status), and a JSON
      body is normalised. */
  function SearchMahasiswa(query: string, fetch: string -> HttpOutcome): (r: Result<seq<JsonValue>>)
    ensures var outcome := fetch(SearchUrl(query));
      r.Success? <==> outcome.Response? && IsOk(outcome.status) && outcome.body.Success?
    ensures var outcome := fetch(SearchUrl(query));
      outcome.Response? && !IsOk(outcome.status) ==> r == Failure("HTTP error! status: " + Digits(outcome.status))
    ensures var outcome := fetch(SearchUrl(query));
      outcome.NetworkError? ==> r == Failure(outcome.message)
    ensures r.Success? ==> r.value == NormalizeResults(fetch(SearchUrl(query)).body.value)
  {
    match fetch(SearchUrl(query))
    case NetworkError(message) => Failure(message)
    case Response(status, body) =>
      if !IsOk(status) then Failure("HTTP error! status: " + Digits(status))
      else
        match body
        case Failure(message) => Failure(message)
        case Success(data) => Success(NormalizeResults(data))
  }

  // ---------------------------------------------------------------------
  // Result cards
  // ---------------------------------------------------------------------

  /** What one result card shows, for a record that renders (see
      CardError). The colour gradient is random and is not part of the
      card's content here. */
  datatype Card = Card(
    name: string,
    nim: string,
    institution: string,
    programme: string,
    initials: string,
    photo: Option<string>)

  /** The NIM as displayed: "-" when the record has none or an empty one. */
  function NimText(record: JsonValue): (nim: string)
    ensures TextField(record, "nim").None? || TextField(record, "nim").value == "" ==> nim == "-"
    ensures TextField(record, "nim").Some? && TextField(record, "nim").value != "" ==> nim == TextField(record, "nim").value
    ensures nim != ""
  {
    OrElse(TextField(record, "nim"), "-")
  }

  /** A record belongs to Universitas Mulawarman when its institution name
      is present and, lower-cased, contains "mulawarman". */
  function IsUnmul(record: JsonValue): (b: bool)
    ensures b <==> (TextField(record, "nama_pt").Some? &&
      var pt := Lower(TextField(record, "nama_pt").value);
      exists i | 0 <= i <= |pt| - 10 :: "mulawarman" <= pt[i..])
  {
    match TextField(record, "nama_pt")
    case None => false
    case Some(pt) =>
      IncludesIff(Lower(pt), "mulawarman");
      pt != "" && Includes(Lower(pt), "mulawarman")
  }

  /** The test ignores letter case: any ten characters of the institution
      name that lower-case to "mulawarman" make the record an Unmul one. */
  lemma UnmulIgnoresCase(record: JsonValue, i: nat)
    requires TextField(record, "nama_pt").Some?
    requires i + 10 <= |TextField(record, "nama_pt").value|
    requires Lower(TextField(record, "nama_pt").value[i..i + 10]) == "mulawarman"
    ensures IsUnmul(record)
  {
    var pt := TextField(record, "nama_pt").value;
    var low := Lower(pt);
    forall k | 0 <= k < 10
      ensures low[i..][k] == "mulawarman"[k]
    {
      assert Lower(pt[i..i + 10])[k] == LowerChar(pt[i + k]);
    }
    assert "mulawarman" <= low[i..];
  }

  /** `createResultCard(mahasiswa)`, as content: the displayed NIM, the
      initials of the name, fallbacks for missing fields, and a photo from
      the university's AIS server exactly for Unmul records. */
  function CreateCard(record: JsonValue): (card: Card)
    ensures card.nim == NimText(record)
    ensures card.initials == GetInitials(TextField(record, "nama"))
    ensures card.photo.Some? <==> IsUnmul(record)
    ensures card.photo.Some? ==> card.photo.value == AisPhotoUrl + card.nim
    ensures card.name == OrElse(TextField(record, "nama"), "Nama tidak tersedia")
    ensures card.institution == OrElse(TextField(record, "nama_pt"), "PT tidak tersedia")
    ensures card.programme == OrElse(TextField(record, "nama_prodi"), "Prodi tidak tersedia")
    ensures card.name != "" && card.institution != "" && card.programme != ""
  {
    var nim := NimText(record);
    Card(
      OrElse(TextField(record, "nama"), "Nama tidak tersedia"),
      nim,
      OrElse(TextField(record, "nama_pt"), "PT tidak tersedia"),
      OrElse(TextField(record, "nama_prodi"), "Prodi tidak tersedia"),
      GetInitials(TextField(record, "nama")),
      if IsUnmul(record) then Some(AisPhotoUrl + nim) else None)
  }

  /** A field that is present and truthy but not a string: calling a string
      method on it throws a TypeError. */
  predicate NotText(field: Option<JsonValue>)
  {
    field.Some? && Truthy(field.value) && !field.value.JString?
  }

  const NullRecordMessage := "Cannot read properties of null (reading 'nama')"
  const NameMessage := "name.trim is not a function"
  const InstitutionMessage := "mahasiswa.nama_pt.toLowerCase is not a function"

  /** The TypeError `createResultCard` throws on a record, if any, in the
      order it runs into them: a null record when `nama` is read, a `nama`
      that reaches `trim` without being a string, a `nama_pt` that reaches
      `toLowerCase` without being a string. The messages are V8's. */
  function CardError(record: JsonValue): (e: Option<string>)
    ensures record.JNull? ==> e == Some(NullRecordMessage)
    ensures !record.JNull? && NotText(Field(record, "nama")) ==> e == Some(NameMessage)
    ensures !record.JNull? && !NotText(Field(record, "nama")) && NotText(Field(record, "nama_pt"))
      ==> e == Some(InstitutionMessage)
    ensures e.None? <==> !record.JNull? && !NotText(Field(record, "nama")) && !NotText(Field(record, "nama_pt"))
    ensures e.Some? ==> e.value != ""
  {
    if record.JNull? then Some(NullRecordMessage)
    else if NotText(Field(record, "nama")) then Some(NameMessage)
    else if NotText(Field(record, "nama_pt")) then Some(InstitutionMessage)
    else None
  }

  /** A record whose fields are all strings or null renders. */
  lemma TextRecordRenders(record: JsonValue)
    requires record.JObject?
    requires forall key | key in record.fields :: record.fields[key].JString? || record.fields[key].JNull?
    ensures CardError(record).None?
  {
  }

  /** How many results, from the front, render before the first one that
      throws. */
  function RenderedCount(results: seq<JsonValue>): (n: nat)
    ensures n <= |results|
    ensures forall k | 0 <= k < n :: CardError(results[k]).None?
    ensures n < |results| ==> CardError(results[n]).Some?
  {
    if results == [] || CardError(results[0]).Some? then 0
    else
      var n := RenderedCount(results[1..]);
      assert forall k | 1 <= k < 1 + n :: results[k] == results[1..][k - 1];
      1 + n
  }

  /** Walking the results from the front, the first card that throws is
      the one at RenderedCount. */
  lemma RenderedStep(results: seq<JsonValue>, i: nat)
    requires i <= RenderedCount(results) && i < |results|
    ensures CardError(results[i]).Some? ==> i == RenderedCount(results)
    ensures CardError(results[i]).None? ==> i < RenderedCount(results)
  {
  }

  /** `f` applied to every element, appended one by one. */
  function MapSeq<A, B>(f: A -> B, xs: seq<A>): seq<B>
  {
    if xs == [] then [] else MapSeq(f, xs[..|xs| - 1]) + [f(xs[|xs| - 1])]
  }

  lemma {:induction false} MapSeqEach<A, B>(f: A -> B, xs: seq<A>)
    ensures |MapSeq(f, xs)| == |xs|
    ensures forall k | 0 <= k < |xs| :: MapSeq(f, xs)[k] == f(xs[k])
    decreases |xs|
  {
    if xs != [] {
      var n := |xs| - 1;
      var init := xs[..n];
      MapSeqEach(f, init);
      var ys := MapSeq(f, xs);
      assert ys == MapSeq(f, init) + [f(xs[n])];
      forall k | 0 <= k < |xs|
        ensures ys[k] == f(xs[k])
      {
        if k < n {
          assert ys[k] == MapSeq(f, init)[k];
          assert init[k] == xs[k];
        }
      }
    }
  }

  lemma MapSeqSnoc<A, B>(f: A -> B, xs: seq<A>, i: nat)
    requires i < |xs|
    ensures MapSeq(f, xs[..i + 1]) == MapSeq(f, xs[..i]) + [f(xs[i])]
  {
    assert xs[..i + 1][..i] == xs[..i];
  }

  /** The cards for a list of results, appended one by one. */
  function CardsOf(results: seq<JsonValue>): (cards: seq<Card>)
    ensures |cards| == |results|
  {
    MapSeqEach(CreateCard, results);
    MapSeq(CreateCard, results)
  }

  /** The cards for one more result are one more card. */
  lemma CardsOfSnoc(results: seq<JsonValue>, i: nat)
    requires i < |results|
    ensures CardsOf(results[..i + 1]) == CardsOf(results[..i]) + [CreateCard(results[i])]
  {
    MapSeqSnoc(CreateCard, results, i);
  }

  /** One card per result, in the order of the results. */
  lemma CardsOfEach(results: seq<JsonValue>)
    ensures |CardsOf(results)| == |results|
    ensures forall k | 0 <= k < |results| :: CardsOf(results)[k] == CreateCard(results[k])
  {
    MapSeqEach(CreateCard, results);
  }

  // ---------------------------------------------------------------------
  // The page
  // ---------------------------------------------------------------------

  /** The four mutually exclusive panels `showState` chooses between. */
  datatype ViewState = EmptyState | NoResults | ErrorState | ResultsState

  /** The label above the results: the query between double quotes. */
  function QueryLabel(query: string): (shown: string)
    ensures |shown| == |query| + 13 && shown[12..|shown| - 1] == query
  {
    "Pencarian: \"" + query + "\""
  }

  /** The parts of the search page the script writes to. */
  class SearchPage {
    /** The visible panel; None until the script first chooses one. */
    var shown: Option<ViewState>
    /** The cards in the results container, in order. */
    var cards: seq<Card>
    var resultCount: nat
    var queryDisplay: string
    var errorMessage: string
    /** The queries handed to the search function, in order. */
    var requests: seq<string>

    constructor()
      ensures shown == None && cards == [] && requests == []
      ensures resultCount == 0 && queryDisplay == "" && errorMessage == ""
    {
      shown := None;
      cards := [];
      resultCount := 0;
      queryDisplay := "";
      errorMessage := "";
      requests := [];
    }

    /** The page shows `results` for `query`: the no-results panel for an
        empty list, otherwise the results panel with the count and the query,
        and one card per result in the order given. */
    ghost predicate Displays(results: seq<JsonValue>, query: string)
      reads this
    {
      && shown == Some(if results == [] then NoResults else ResultsState)
      && cards == CardsOf(results)
      && (results != [] ==> resultCount == |results| && queryDisplay == QueryLabel(query))
    }

    /** `showState(state)`: exactly one panel is visible and the results
        container is emptied. */
    method ShowState(state: ViewState)
      modifies this
      ensures shown == Some(state) && cards == []
      ensures resultCount == old(resultCount) && queryDisplay == old(queryDisplay)
      ensures errorMessage == old(errorMessage) && requests == old(requests)
    {
      shown := Some(state);
      cards := [];
    }

    /** `displayResults(results, query)`. A card that throws stops the
        loop: the cards before it stay, and the TypeError is passed on as
        `thrown`. */
    method DisplayResults(results: seq<JsonValue>, query: string) returns (thrown: Option<string>)
      modifies this
      ensures thrown.None? <==> RenderedCount(results) == |results|
      ensures thrown.Some? ==> thrown == CardError(results[RenderedCount(results)])
      ensures thrown.None? ==> Displays(results, query)
      ensures thrown.Some? ==>
        && shown == Some(ResultsState) && cards == CardsOf(results[..RenderedCount(results)])
        && resultCount == |results| && queryDisplay == QueryLabel(query)
      ensures results == [] ==> resultCount == old(resultCount) && queryDisplay == old(queryDisplay)
      ensures errorMessage == old(errorMessage) && requests == old(requests)
    {
      thrown := None;
      if results == [] {
        ShowState(NoResults);
        return;
      }
      ShowState(ResultsState);
      resultCount := |results|;
      queryDisplay := QueryLabel(query);
      thrown := AppendCards(results);
      if thrown.None? {
        assert results[..RenderedCount(results)] == results;
      }
    }

    /** The `forEach` of `displayResults`: one card per result appended in
        order, until a card throws; the cards before it stay. */
    method AppendCards(results: seq<JsonValue>) returns (thrown: Option<string>)
      requires cards == []
      modifies this
      ensures thrown.None? <==> RenderedCount(results) == |results|
      ensures thrown.Some? ==> thrown == CardError(results[RenderedCount(results)])
      ensures cards == CardsOf(results[..RenderedCount(results)])
      ensures shown == old(shown) && resultCount == old(resultCount) && queryDisplay == old(queryDisplay)
      ensures errorMessage == old(errorMessage) && requests == old(requests)
    {
      thrown := None;
      ghost var rendered := RenderedCount(results);
      var i := 0;
      while i < |results|
        invariant 0 <= i <= rendered
        invariant cards == CardsOf(results[..i])
        invariant shown == old(shown) && resultCount == old(resultCount) && queryDisplay == old(queryDisplay)
        invariant errorMessage == old(errorMessage) && requests == old(requests)
        invariant thrown.None?
      {
        var error := CardError(results[i]);
        RenderedStep(results, i);
        if error.Some? {
          thrown := error;
          return;
        }
        var card := CreateCard(results[i]);
        CardsOfSnoc(results, i);
        cards := cards + [card];
        i := i + 1;
      }
    }

    /** `performSearch()` on the text `input` of the search box, with
        `search` standing for whichever `searchMahasiswa` is installed. A
        query that is empty once trimmed shows the empty panel and searches
        for nothing; otherwise the trimmed query is searched for once. A
        failed search, or a result whose card throws, shows the error panel
        with the error's message, or a generic message when it has none. */
    method PerformSearch(input: string, search: string -> Result<seq<JsonValue>>)
      modifies this
      ensures Trim(input) == [] ==> shown == Some(EmptyState) && cards == [] && requests == old(requests)
      ensures Trim(input) == [] ==>
        resultCount == old(resultCount) && queryDisplay == old(queryDisplay) && errorMessage == old(errorMessage)
      ensures Trim(input) != [] ==> requests == old(requests) + [Trim(input)]
      ensures Trim(input) != [] && (search(Trim(input)).Failure? || search(Trim(input)).value == []) ==>
        resultCount == old(resultCount) && queryDisplay == old(queryDisplay)
      ensures var q := Trim(input);
        q != [] && search(q).Success? && RenderedCount(search(q).value) == |search(q).value| ==>
        Displays(search(q).value, q) && errorMessage == old(errorMessage)
      ensures var q := Trim(input);
        q != [] && search(q).Success? && RenderedCount(search(q).value) < |search(q).value| ==>
        && shown == Some(ErrorState) && cards == []
        && errorMessage == CardError(search(q).value[RenderedCount(search(q).value)]).value
        && resultCount == |search(q).value| && queryDisplay == QueryLabel(q)
      ensures Trim(input) != [] && search(Trim(input)).Failure? ==>
        shown == Some(ErrorState) && cards == []
        && errorMessage == OrElse(Some(search(Trim(input)).message), DefaultErrorMessage)
      ensures var q := Trim(input);
        shown == Some(ErrorState) ==>
        q != [] && (search(q).Failure? || RenderedCount(search(q).value) < |search(q).value|)
    {
      var query := Trim(input);
      if query == [] {
        ShowState(EmptyState);
        return;
      }
      requests := requests + [query];
      match search(query)
      case Success(results) =>
        var thrown := DisplayResults(results, query);
        if thrown.Some? {
          ShowState(ErrorState);
          errorMessage := OrElse(thrown, DefaultErrorMessage);
        }
      case Failure(message) =>
        ShowState(ErrorState);
        errorMessage := OrElse(Some(message), DefaultErrorMessage);
    }
  }

  /** The page with search.js's own `searchMahasiswa` installed: a status
      outside 200-299 ends on the error panel naming that status, never on
      the results. */
  method SearchDirect(page: SearchPage, input: string, fetch: string -> HttpOutcome)
    modifies page
    ensures var outcome := fetch(SearchUrl(Trim(input)));
      Trim(input) != [] && outcome.Response? && !IsOk(outcome.status) ==>
        page.shown == Some(ErrorState) && page.cards == []
        && page.errorMessage == "HTTP error! status: " + Digits(outcome.status)
  {
    page.PerformSearch(input, q => SearchMahasiswa(q, fetch));
  }
}
