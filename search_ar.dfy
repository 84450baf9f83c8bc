/**
 * frontend/js/search-ar.js: the Arabic document search page. A fixed table of documents is
 * filtered by category, year and a search term, and the results container then holds one
 * card per matching document, in table order, or only the no-results message.
 */
module SearchAr {
  import opened Strings

  /** One entry of the page's document table. */
  datatype Document = Document(
    title: string,
    text: string,
    category: string,
    categoryDisplay: string,
    year: string,
    thumbnail: string,
    url: string)

  const DOCUMENTS: seq<Document> := [
    Document(
      "المادة 123 - القانون المدني",
      "نص المادة القانونية يظهر هنا مع تفاصيل إضافية عن محتواها وتطبيقها.",
      "civil", "القانون المدني", "2023",
      "assets/images/thumbnails/civil law.png", "assets/documents/civil-law-guide.pdf"),
    Document(
      "المادة 45 - قانون الأسرة",
      "وصف تفصيلي للمادة القانونية مع شرح لتطبيقها في الحالات المختلفة.",
      "family", "قانون الأسرة", "2022",
      "assets/images/thumbnails/family-thumb.png", "assets/documents/family-law-guide.pdf"),
    Document(
      "المادة 78 - القانون التجاري",
      "معلومات عن المادة القانونية وتأثيرها على المعاملات التجارية.",
      "commercial", "القانون التجاري", "2024",
      "assets/images/thumbnails/business law.png", "assets/documents/business-law-guide.pdf"),
    Document(
      "المادة 32 - القانون الجنائي",
      "تفاصيل حول الإجراءات الجنائية وحقوق المتهم.",
      "criminal", "القانون الجنائي", "2023",
      "assets/images/thumbnails/criminal-thumb.png", "assets/documents/criminal-law-guide.pdf")
  ]

  const NO_RESULTS_HTML: string := "<p class=\"lexend-deca-regular\">لا توجد نتائج مطابقة لبحثك.</p>"

  /** What the results container holds: markup set through innerHTML, or one inserted result card. */
  datatype Fragment = Markup(html: string) | ResultCard(doc: Document)

  // ----- The filter predicate -----

  predicate MatchesCategory(doc: Document, selectedCategory: string) {
    selectedCategory == "" || doc.category == selectedCategory
  }

  predicate MatchesYear(doc: Document, selectedYear: string) {
    selectedYear == "" || doc.year == selectedYear
  }

  /** searchTerm is already lowercased; the title and text are lowercased before the substring test. */
  predicate MatchesSearch(doc: Document, searchTerm: string) {
    searchTerm == "" || Contains(ToLower(doc.title), searchTerm) || Contains(ToLower(doc.text), searchTerm)
  }

  predicate Matches(doc: Document, searchTerm: string, selectedCategory: string, selectedYear: string) {
    MatchesCategory(doc, selectedCategory) && MatchesYear(doc, selectedYear) && MatchesSearch(doc, searchTerm)
  }

  /** documents.filter(...) with the three filters. */
  function Filter(docs: seq<Document>, searchTerm: string, selectedCategory: string, selectedYear: string): (r: seq<Document>)
    ensures |r| <= |docs|
  {
    if docs == [] then []
    else
      (if Matches(docs[0], searchTerm, selectedCategory, selectedYear) then [docs[0]] else []) +
      Filter(docs[1..], searchTerm, selectedCategory, selectedYear)
  }

  /** a is b with some entries left out, the remaining ones in their order. */
  predicate SubsequenceOf<T(==)>(a: seq<T>, b: seq<T>)
    decreases |b|
  {
    a == [] ||
    (b != [] && ((a[0] == b[0] && SubsequenceOf(a[1..], b[1..])) || SubsequenceOf(a, b[1..])))
  }

  /** The filtered list keeps the table's order: it is a subsequence of the documents. */
  lemma {:induction false} FilterIsSubsequence(docs: seq<Document>, searchTerm: string, selectedCategory: string, selectedYear: string)
    ensures SubsequenceOf(Filter(docs, searchTerm, selectedCategory, selectedYear), docs)
  {
    if docs != [] {
      var rest := Filter(docs[1..], searchTerm, selectedCategory, selectedYear);
      FilterIsSubsequence(docs[1..], searchTerm, selectedCategory, selectedYear);
      if Matches(docs[0], searchTerm, selectedCategory, selectedYear) {
        assert ([docs[0]] + rest)[1..] == rest;
      } else {
        assert [] + rest == rest;
      }
    }
  }

  /** A document is listed exactly when it is in the table and passes all three filters. */
  lemma {:induction false} FilterMembership(docs: seq<Document>, searchTerm: string, selectedCategory: string, selectedYear: string, d: Document)
    ensures d in Filter(docs, searchTerm, selectedCategory, selectedYear) <==>
      d in docs && Matches(d, searchTerm, selectedCategory, selectedYear)
  {
    if docs != [] {
      FilterMembership(docs[1..], searchTerm, selectedCategory, selectedYear, d);
      assert docs == [docs[0]] + docs[1..];
    }
  }

  /** When every document passes, the filter keeps them all; in particular with all three filters empty. */
  lemma {:induction false} FilterAllPass(docs: seq<Document>, searchTerm: string, selectedCategory: string, selectedYear: string)
    requires forall i :: 0 <= i < |docs| ==> Matches(docs[i], searchTerm, selectedCategory, selectedYear)
    ensures Filter(docs, searchTerm, selectedCategory, selectedYear) == docs
  {
    if docs != [] {
      FilterAllPass(docs[1..], searchTerm, selectedCategory, selectedYear);
    }
  }

  lemma FilterNoFilters(docs: seq<Document>)
    ensures Filter(docs, "", "", "") == docs
  {
    FilterAllPass(docs, "", "", "");
  }

  /** Selecting the category "civil" leaves the one civil-law document. */
  lemma FilterCivil()
    ensures Filter(DOCUMENTS, "", "civil", "") == [DOCUMENTS[0]]
  {
    assert DOCUMENTS[1..][1..][1..][1..] == [];
  }

  /** Selecting the year "2023" leaves the first and the last document. */
  lemma FilterYear2023()
    ensures Filter(DOCUMENTS, "", "", "2023") == [DOCUMENTS[0], DOCUMENTS[3]]
  {
    assert DOCUMENTS[1..][1..][1..][1..] == [];
  }

  /**
   * The search term is lowercased but not trimmed: a single space is a search term, which
   * drops a document with no space in its title or text that the empty term would keep.
   */
  lemma SearchTermNotTrimmed(d: Document)
    requires ' ' !in d.title && ' ' !in d.text
    ensures !Matches(d, ToLower(" "), "", "")
    ensures Matches(d, ToLower(""), "", "")
  {
    assert ToLower(" ") == " ";
    NoSpaceAfterLowering(d.title);
    NoSpaceAfterLowering(d.text);
  }

  lemma NoSpaceAfterLowering(x: string)
    requires ' ' !in x
    ensures !Contains(ToLower(x), " ")
  {
    var s := ToLower(x);
    forall i | 0 <= i <= |s| ensures !(" " <= s[i..]) {
      if i < |s| {
        assert s[i..][0] == s[i] == LowerChar(x[i]) && x[i] in x;
      }
    }
  }

  // ----- Rendering -----

  /** One result card per document, in order. */
  function Cards(docs: seq<Document>): (r: seq<Fragment>)
    ensures |r| == |docs|
    ensures forall i :: 0 <= i < |docs| ==> r[i] == ResultCard(docs[i])
  {
    seq(|docs|, i requires 0 <= i < |docs| => ResultCard(docs[i]))
  }

  /**
   * What renderResults leaves in the container: the no-results message exactly when the list is
   * empty, and otherwise exactly one card per document, in order, and no message.
   */
  function Rendered(docs: seq<Document>): (r: seq<Fragment>)
    ensures docs == [] <==> Markup(NO_RESULTS_HTML) in r
    ensures docs == [] ==> r == [Markup(NO_RESULTS_HTML)]
    ensures docs != [] ==> |r| == |docs| && forall i :: 0 <= i < |docs| ==> r[i] == ResultCard(docs[i])
  {
    if docs == [] then [Markup(NO_RESULTS_HTML)] else Cards(docs)
  }

  /** The page: its document table, the values of its three inputs, and the results container. */
  class SearchPage {
    const documents: seq<Document>
    var searchValue: string
    var categoryValue: string
    var yearValue: string
    var results: seq<Fragment>

    /** DOMContentLoaded: the table is set up and every document is rendered. */
    constructor Load(search: string, category: string, year: string)
      ensures documents == DOCUMENTS
      ensures searchValue == search && categoryValue == category && yearValue == year
      ensures results == Rendered(DOCUMENTS)
    {
      documents := DOCUMENTS;
      searchValue := search;
      categoryValue := category;
      yearValue := year;
      results := [];
      new;
      RenderResults(documents);
    }

    /** renderResults: clear the container, then the message or one card per document. */
    method RenderResults(docs: seq<Document>)
      modifies this`results
      ensures results == Rendered(docs)
    {
      results := [];
      if |docs| == 0 {
        results := [Markup(NO_RESULTS_HTML)];
        return;
      }
      var i := 0;
      while i < |docs|
        invariant 0 <= i <= |docs|
        invariant results == Cards(docs[..i])
      {
        results := results + [ResultCard(docs[i])];
        i := i + 1;
      }
      assert docs[..|docs|] == docs;
    }

    /** filterAndRender: the lowercased search term and the two selections, then rendering. */
    method FilterAndRender()
      modifies this`results
      ensures results == Rendered(Filter(documents, ToLower(searchValue), categoryValue, yearValue))
    {
      var searchTerm := ToLower(searchValue);
      var filtered := Filter(documents, searchTerm, categoryValue, yearValue);
      RenderResults(filtered);
    }

    /** The search input's `input` event, after the user typed value. */
    method OnSearchInput(value: string)
      modifies this
      ensures searchValue == value && categoryValue == old(categoryValue) && yearValue == old(yearValue)
      ensures results == Rendered(Filter(documents, ToLower(value), categoryValue, yearValue))
    {
      searchValue := value;
      FilterAndRender();
    }

    /** The category select's `change` event. */
    method OnCategoryChange(value: string)
      modifies this
      ensures categoryValue == value && searchValue == old(searchValue) && yearValue == old(yearValue)
      ensures results == Rendered(Filter(documents, ToLower(searchValue), value, yearValue))
    {
      categoryValue := value;
      FilterAndRender();
    }

    /** The year select's `change` event. */
    method OnYearChange(value: string)
      modifies this
      ensures yearValue == value && searchValue == old(searchValue) && categoryValue == old(categoryValue)
      ensures results == Rendered(Filter(documents, ToLower(searchValue), categoryValue, value))
    {
      yearValue := value;
      FilterAndRender();
    }
  }

  /** The initial render lists all four documents as cards. */
  lemma InitialRenderShowsAll()
    ensures Rendered(DOCUMENTS) == Cards(DOCUMENTS) && |Rendered(DOCUMENTS)| == 4
  {
  }
}
