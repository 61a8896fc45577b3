/** Request bodies of the admin endpoints: a school page, a news item to
    publish, and a news item edit. Each field is stripped of surrounding
    whitespace and then checked for length and character class; a body that
    fails any check is answered with 422. */
module AdminDto {
  import opened Tables
  import opened Text

  datatype PageInsert = PageInsert(location: string, schoolName: string)
  datatype NewsInsert = NewsInsert(pageId: PageId, title: string, content: string)
  datatype NewsUpdate = NewsUpdate(newsId: NewsId, title: string, content: string)

  // ---- Field rules, on the stripped value ----

  /** Location and school name: 1 to 20 Hangul syllables. */
  predicate HangulName(v: string) {
    1 <= |v| <= 20 && AllIn(v, IsHangulSyllable)
  }

  predicate IsTitleChar(c: char) {
    IsAsciiLetter(c) || IsHangulSyllable(c) || IsAsciiDigit(c) || IsWhitespace(c)
  }

  /** Title: 1 to 100 letters, Hangul syllables, digits or whitespace. */
  predicate TitleOk(v: string) {
    1 <= |v| <= 100 && AllIn(v, IsTitleChar)
  }

  /** Content: 10 to 500 characters of any kind. */
  predicate ContentOk(v: string) {
    10 <= |v| <= 500
  }

  // ---- What a validated body holds ----

  predicate ValidPageInsert(d: PageInsert) {
    HangulName(d.location) && HangulName(d.schoolName)
  }

  predicate ValidNewsInsert(d: NewsInsert) {
    Stripped(d.title) && TitleOk(d.title) && Stripped(d.content) && ContentOk(d.content)
  }

  predicate ValidNewsUpdate(d: NewsUpdate) {
    Stripped(d.title) && TitleOk(d.title) && Stripped(d.content) && ContentOk(d.content)
  }

  // ---- Validation of raw bodies; a missing field is None ----

  function ParsePageInsert(location: Option<string>, schoolName: Option<string>): (r: Result<PageInsert>)
    ensures r.Ok? ==> ValidPageInsert(r.value)
    ensures r.Err? ==> r.status == Unprocessable
  {
    if location.None? || schoolName.None? then Err(Unprocessable)
    else
      var l, n := Strip(location.value), Strip(schoolName.value);
      if HangulName(l) && HangulName(n) then Ok(PageInsert(l, n)) else Err(Unprocessable)
  }

  /** Title and content as the insert and the update body both check them. */
  function ParseNewsText(title: Option<string>, content: Option<string>): (r: Result<(string, string)>)
    ensures r.Ok? ==> Stripped(r.value.0) && TitleOk(r.value.0) && Stripped(r.value.1) && ContentOk(r.value.1)
    ensures r.Err? ==> r.status == Unprocessable
  {
    if title.None? || content.None? then Err(Unprocessable)
    else
      var t, c := Strip(title.value), Strip(content.value);
      if TitleOk(t) && ContentOk(c) then Ok((t, c)) else Err(Unprocessable)
  }

  function ParseNewsInsert(pageId: Option<int>, title: Option<string>, content: Option<string>): (r: Result<NewsInsert>)
    ensures r.Ok? ==> ValidNewsInsert(r.value)
    ensures r.Err? ==> r.status == Unprocessable
  {
    if pageId.None? then Err(Unprocessable)
    else
      match ParseNewsText(title, content)
      case Err(e) => Err(e)
      case Ok(tc) => Ok(NewsInsert(pageId.value, tc.0, tc.1))
  }

  function ParseNewsUpdate(newsId: Option<int>, title: Option<string>, content: Option<string>): (r: Result<NewsUpdate>)
    ensures r.Ok? ==> ValidNewsUpdate(r.value)
    ensures r.Err? ==> r.status == Unprocessable
  {
    if newsId.None? then Err(Unprocessable)
    else
      match ParseNewsText(title, content)
      case Err(e) => Err(e)
      case Ok(tc) => Ok(NewsUpdate(newsId.value, tc.0, tc.1))
  }

  // ---- Properties ----

  /** A validated body is its own validation: parsing the fields of a valid
      body gives the body back. */
  lemma PageInsertRoundTrip(d: PageInsert)
    requires ValidPageInsert(d)
    ensures ParsePageInsert(Some(d.location), Some(d.schoolName)) == Ok(d)
  {
    StripStripped(d.location);
    StripStripped(d.schoolName);
  }

  lemma NewsInsertRoundTrip(d: NewsInsert)
    requires ValidNewsInsert(d)
    ensures ParseNewsInsert(Some(d.pageId), Some(d.title), Some(d.content)) == Ok(d)
  {
    StripStripped(d.title);
    StripStripped(d.content);
  }

  lemma NewsUpdateRoundTrip(d: NewsUpdate)
    requires ValidNewsUpdate(d)
    ensures ParseNewsUpdate(Some(d.newsId), Some(d.title), Some(d.content)) == Ok(d)
  {
    StripStripped(d.title);
    StripStripped(d.content);
  }

  /** Location is accepted exactly when its stripped form has 1 to 20
      characters, all Hangul syllables; the stored value is that stripped
      form. */
  lemma LocationRule(location: string, schoolName: string)
    requires HangulName(Strip(schoolName))
    ensures ParsePageInsert(Some(location), Some(schoolName)).Ok? <==>
              (1 <= |Strip(location)| <= 20 && forall i :: 0 <= i < |Strip(location)| ==> IsHangulSyllable(Strip(location)[i]))
    ensures ParsePageInsert(Some(location), Some(schoolName)).Ok? ==>
              ParsePageInsert(Some(location), Some(schoolName)).value.location == Strip(location)
  {
  }

  /** A page body is accepted exactly when both fields are present and both
      stripped fields are Hangul names, and what is stored is the stripped
      pair. */
  lemma PageInsertRule(location: Option<string>, schoolName: Option<string>)
    ensures ParsePageInsert(location, schoolName).Ok? <==>
              location.Some? && schoolName.Some? && HangulName(Strip(location.value)) && HangulName(Strip(schoolName.value))
    ensures ParsePageInsert(location, schoolName).Ok? ==>
              ParsePageInsert(location, schoolName).value == PageInsert(Strip(location.value), Strip(schoolName.value))
  {
  }

  /** Title and content are accepted exactly when both are present and their
      stripped forms pass the title and content rules; the stripped forms are
      what is kept. */
  lemma NewsTextRule(title: Option<string>, content: Option<string>)
    ensures ParseNewsText(title, content).Ok? <==>
              title.Some? && content.Some? && TitleOk(Strip(title.value)) && ContentOk(Strip(content.value))
    ensures ParseNewsText(title, content).Ok? ==>
              ParseNewsText(title, content).value == (Strip(title.value), Strip(content.value))
  {
  }

  /** A publish body is accepted exactly when page_id is present and the
      stripped title and content pass; the item keeps the stripped text. */
  lemma NewsInsertRule(pageId: Option<int>, title: Option<string>, content: Option<string>)
    ensures ParseNewsInsert(pageId, title, content).Ok? <==>
              pageId.Some? && title.Some? && content.Some? && TitleOk(Strip(title.value)) && ContentOk(Strip(content.value))
    ensures ParseNewsInsert(pageId, title, content).Ok? ==>
              ParseNewsInsert(pageId, title, content).value == NewsInsert(pageId.value, Strip(title.value), Strip(content.value))
  {
    NewsTextRule(title, content);
  }

  /** An edit body is accepted exactly when news_id is present and the
      stripped title and content pass; the edit carries the stripped text. */
  lemma NewsUpdateRule(newsId: Option<int>, title: Option<string>, content: Option<string>)
    ensures ParseNewsUpdate(newsId, title, content).Ok? <==>
              newsId.Some? && title.Some? && content.Some? && TitleOk(Strip(title.value)) && ContentOk(Strip(content.value))
    ensures ParseNewsUpdate(newsId, title, content).Ok? ==>
              ParseNewsUpdate(newsId, title, content).value == NewsUpdate(newsId.value, Strip(title.value), Strip(content.value))
  {
    NewsTextRule(title, content);
  }

  /** Surrounding whitespace on title and content never changes what a
      valid publish body validates to. */
  lemma PaddedNewsAccepted(d: NewsInsert, lead: string, trail: string)
    requires ValidNewsInsert(d)
    requires forall i :: 0 <= i < |lead| ==> IsWhitespace(lead[i])
    requires forall i :: 0 <= i < |trail| ==> IsWhitespace(trail[i])
    ensures ParseNewsInsert(Some(d.pageId), Some(lead + d.title + trail), Some(lead + d.content + trail)) == Ok(d)
  {
    StripPadded(lead, d.title, trail);
    StripPadded(lead, d.content, trail);
  }

  /** Edit and publish judge a title and a content alike. */
  lemma UpdateMatchesInsert(pageId: int, newsId: int, title: Option<string>, content: Option<string>)
    ensures ParseNewsUpdate(Some(newsId), title, content).Ok? <==> ParseNewsInsert(Some(pageId), title, content).Ok?
    ensures ParseNewsUpdate(Some(newsId), title, content).Ok? ==>
              ParseNewsUpdate(Some(newsId), title, content).value.title == ParseNewsInsert(Some(pageId), title, content).value.title
              && ParseNewsUpdate(Some(newsId), title, content).value.content == ParseNewsInsert(Some(pageId), title, content).value.content
  {
  }

  /** The ids are required: a body without one is rejected whatever else it holds. */
  lemma IdsRequired(title: Option<string>, content: Option<string>)
    ensures ParseNewsInsert(None, title, content) == Err(Unprocessable)
    ensures ParseNewsUpdate(None, title, content) == Err(Unprocessable)
  {
  }

  /** Validated values fit the columns they are stored in. */
  lemma ValidatedFitsColumns(p: PageInsert, n: NewsInsert, u: NewsUpdate)
    requires ValidPageInsert(p) && ValidNewsInsert(n) && ValidNewsUpdate(u)
    ensures |p.location| <= LocationWidth && |p.schoolName| <= SchoolNameWidth
    ensures |n.title| <= TitleWidth && |n.content| <= ContentWidth
    ensures |u.title| <= TitleWidth && |u.content| <= ContentWidth
  {
  }

  /** A title with a symbol is rejected: "서초중학교 소식@@@@". */
  lemma SymbolTitleRejected()
    ensures ParseNewsInsert(Some(1), Some("서초중학교 소식@@@@"), Some("서초중학교 소식입니다.")).Err?
  {
    var t := "서초중학교 소식@@@@";
    StripStripped(t);
    assert !IsTitleChar(t[|t| - 1]);
  }

  /** The body the publish test sends is accepted unchanged. */
  lemma SampleNewsAccepted()
    ensures ParseNewsInsert(Some(1), Some("서초중학교 소식"), Some("서초중학교 소식입니다.")) ==
            Ok(NewsInsert(1, "서초중학교 소식", "서초중학교 소식입니다."))
  {
    var t, c := "서초중학교 소식", "서초중학교 소식입니다.";
    assert Stripped(t) && Stripped(c);
    assert forall i :: 0 <= i < |t| ==> IsTitleChar(t[i]);
    NewsInsertRoundTrip(NewsInsert(1, t, c));
  }
}
