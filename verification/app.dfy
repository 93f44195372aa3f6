/** The request handlers of app.py, minus Flask: how a typed title or
    person name is canonicalised before it is searched for, and how a
    detail page names the resource it shows. */
module App {
  import opened Results
  import opened PyStr
  import opened Labels
  import opened Queries
  import Normalizer

  /** `title_words[0]` on an empty word list raises IndexError. */
  datatype AppError = IndexError

  /** Every word capitalized. */
  function CapitalizeAll(words: seq<string>): (r: seq<string>)
    ensures |r| == |words|
    ensures forall i :: 0 <= i < |words| ==> r[i] == Capitalize(words[i])
  {
    seq(|words|, i requires 0 <= i < |words| => Capitalize(words[i]))
  }

  /** `movies()`: split the title on whitespace, capitalize the first word
      only and join the words with single spaces. A blank title leaves no
      first word and fails. */
  function CanonicalTitle(input: string): (r: Result<string, AppError>)
    ensures r.Err? <==> AllSpace(input)
  {
    var words := SplitWhitespace(input);
    if |words| == 0 then Err(IndexError)
    else Ok(Join([Capitalize(words[0])] + words[1..], " "))
  }

  /** `people()`: split the name on whitespace, capitalize every word and
      join the words with single spaces. */
  function CanonicalPerson(input: string): string
  {
    Join(CapitalizeAll(SplitWhitespace(input)), " ")
  }

  /** `movie()` / `person()`: the page heading for the `uri` argument, which
      Flask gives as `None` when absent and `str` turns into "None". */
  function DisplayName(uri: Option<string>): (name: string)
    ensures '/' !in name && '_' !in name
  {
    Label(if uri.Some? then uri.value else "None")
  }

  /** The query `movies()` sends for a typed title, or the error it raises
      before sending anything. */
  function MoviesQuery(input: string): (r: Result<string, AppError>)
    ensures r.Err? <==> AllSpace(input)
  {
    match CanonicalTitle(input)
    case Ok(title) => Ok(QueryText(MovieByTitle, title))
    case Err(e) => Err(e)
  }

  /** The query `people()` sends for a typed name. */
  function PeopleQuery(input: string): string
  {
    QueryText(PeopleByName, CanonicalPerson(input))
  }

  /** Capitalizing keeps a word list a word list. */
  lemma CapitalizeKeepsWords(words: seq<string>)
    requires Words(words)
    ensures Words(CapitalizeAll(words))
    ensures |words| > 0 ==> Words([Capitalize(words[0])] + words[1..])
  {
    if |words| > 0 {
      var ws := [Capitalize(words[0])] + words[1..];
      forall i | 0 <= i < |ws| ensures |ws[i]| > 0 && NoSpace(ws[i]) {
        if i > 0 {
          assert ws[i] == words[i];
        }
      }
    }
  }

  /** Person canonicalization keeps the words and capitalizes each. */
  lemma PersonWords(input: string)
    ensures var ws, out := SplitWhitespace(input), SplitWhitespace(CanonicalPerson(input));
            && |out| == |ws|
            && forall i :: 0 <= i < |ws| ==> out[i] == Capitalize(ws[i])
  {
    var ws := SplitWhitespace(input);
    CapitalizeKeepsWords(ws);
    SplitJoinWords(CapitalizeAll(ws));
  }

  /** A canonical title has no whitespace at either end and single spaces
      between words. */
  lemma TitleWellSpaced(input: string)
    requires !AllSpace(input)
    ensures WellSpaced(CanonicalTitle(input).value)
  {
    var ws := SplitWhitespace(input);
    CapitalizeKeepsWords(ws);
    JoinWordsWellSpaced([Capitalize(ws[0])] + ws[1..]);
  }

  /** A canonical person name has no whitespace at either end and single
      spaces between words. */
  lemma PersonWellSpaced(input: string)
    ensures WellSpaced(CanonicalPerson(input))
  {
    var ws := SplitWhitespace(input);
    CapitalizeKeepsWords(ws);
    JoinWordsWellSpaced(CapitalizeAll(ws));
  }

  /** A blank person name canonicalizes to the empty string, and only a
      blank one does. */
  lemma PersonBlankIsEmpty(input: string)
    ensures CanonicalPerson(input) == "" <==> AllSpace(input)
  {
    var ws := CapitalizeAll(SplitWhitespace(input));
    if |ws| > 0 {
      CapitalizeKeepsWords(SplitWhitespace(input));
      JoinStartsWithFirst(ws, " ");
    }
  }

  /** Title canonicalization keeps the words: the first is capitalized,
      the others come through unchanged. */
  lemma TitleWords(input: string)
    requires !AllSpace(input)
    ensures var ws := SplitWhitespace(input);
            SplitWhitespace(CanonicalTitle(input).value) == [Capitalize(ws[0])] + ws[1..]
  {
    var ws := SplitWhitespace(input);
    CapitalizeKeepsWords(ws);
    SplitJoinWords([Capitalize(ws[0])] + ws[1..]);
  }

  /** Canonicalizing a canonical title changes nothing. */
  lemma TitleIdempotent(input: string)
    requires !AllSpace(input)
    ensures CanonicalTitle(CanonicalTitle(input).value) == CanonicalTitle(input)
  {
    var ws := SplitWhitespace(input);
    var v := [Capitalize(ws[0])] + ws[1..];
    var t := CanonicalTitle(input).value;
    TitleWords(input);
    CapitalizeIdempotent(ws[0]);
    assert [Capitalize(v[0])] + v[1..] == v;
    assert SplitWhitespace(t) == v;
  }

  /** Canonicalizing a canonical person name changes nothing. */
  lemma PersonIdempotent(input: string)
    ensures CanonicalPerson(CanonicalPerson(input)) == CanonicalPerson(input)
  {
    var ws := SplitWhitespace(input);
    PersonWords(input);
    var out := SplitWhitespace(CanonicalPerson(input));
    forall i | 0 <= i < |ws| ensures Capitalize(out[i]) == Capitalize(ws[i]) {
      CapitalizeIdempotent(ws[i]);
    }
    assert CapitalizeAll(out) == CapitalizeAll(ws);
  }

  /** A typed title reaches the query exactly as canonicalized. */
  lemma MoviesQueryCarriesTitle(input: string)
    requires !AllSpace(input)
    ensures ParamOf(MovieByTitle, MoviesQuery(input).value) == Some(CanonicalTitle(input).value)
  {
    ParamRoundTrip(MovieByTitle, CanonicalTitle(input).value);
  }

  /** A typed person name reaches the query exactly as canonicalized. */
  lemma PeopleQueryCarriesName(input: string)
    ensures ParamOf(PeopleByName, PeopleQuery(input)) == Some(CanonicalPerson(input))
  {
    ParamRoundTrip(PeopleByName, CanonicalPerson(input));
  }

  /** The heading of a detail page is the name the listing showed for the
      link that led there. */
  lemma DisplayNameMatchesListing(bindings: seq<string>, k: nat)
    ensures var (names, uris) := Normalizer.Normalize(bindings);
            k < |names| ==> k < |uris| && DisplayName(Some(uris[k])) == names[k]
  {
    Normalizer.NormalizePairsAgree(bindings);
  }

  /** The heading of a detail page opened without a `uri` argument. */
  lemma DisplayNameWhenMissing()
    ensures DisplayName(None) == "None"
  {
    assert '/' !in "None" && '_' !in "None";
    LastPieceWithoutSlash("None");
    ReplaceWithoutUnderscore("None");
  }

  /** Whitespace in front of a title changes nothing. */
  lemma TitleLeadingSpace(c: char, input: string)
    requires IsSpace(c)
    ensures CanonicalTitle([c] + input) == CanonicalTitle(input)
  {
    SplitLeadingSpace(c, input);
  }

  /** A title of two words: only the first is capitalized. */
  lemma TwoWordTitle(a: string, b: string)
    requires Words([a, b])
    ensures CanonicalTitle(a + " " + b) == Ok(Capitalize(a) + " " + b)
  {
    var ws := [a, b];
    SplitJoinWords(ws);
    JoinTwo(a, b);
    assert ws[1..] == [b];
    JoinTwo(Capitalize(a), b);
  }

  /** A person name of two words: both are capitalized. */
  lemma TwoWordPerson(a: string, b: string)
    requires Words([a, b])
    ensures CanonicalPerson(a + " " + b) == Capitalize(a) + " " + Capitalize(b)
  {
    JoinTwo(a, b);
    PersonOfJoin([a, b]);
    CapitalizeTwo(a, b);
  }

  /** Capitalizing and joining a two-word list. */
  lemma CapitalizeTwo(a: string, b: string)
    ensures Join(CapitalizeAll([a, b]), " ") == Capitalize(a) + " " + Capitalize(b)
  {
    assert CapitalizeAll([a, b]) == [Capitalize(a), Capitalize(b)];
    JoinTwo(Capitalize(a), Capitalize(b));
  }

  /** Space-joined words canonicalize word by word. */
  lemma PersonOfJoin(ws: seq<string>)
    requires Words(ws)
    ensures CanonicalPerson(Join(ws, " ")) == Join(CapitalizeAll(ws), " ")
  {
    SplitJoinWords(ws);
  }

  /** Joining two words with a space. */
  lemma JoinTwo(a: string, b: string)
    ensures Join([a, b], " ") == a + " " + b
  {
    assert [a, b][1..] == [b];
  }

  /** Lower-case ASCII words are words. */
  lemma LowerWords(a: string, b: string)
    requires |a| > 0 && forall i :: 0 <= i < |a| ==> 'a' <= a[i] <= 'z'
    requires |b| > 0 && forall i :: 0 <= i < |b| ==> 'a' <= b[i] <= 'z'
    ensures Words([a, b])
  {
  }

  /** Only the first word of a title is capitalized: " the matrix" becomes
      "The matrix". */
  lemma TitleExample()
    ensures CanonicalTitle(" the matrix") == Ok("The matrix")
  {
    LowerWords("the", "matrix");
    TheMatrixText();
    CapitalizedThe();
    TitleLeadingSpace(' ', "the matrix");
    TwoWordTitle("the", "matrix");
  }

  /** Literal fact for `TitleExample`, kept apart so the solver checks it in a small context. */
  lemma TheMatrixText()
    ensures " the matrix" == [' '] + ("the" + " " + "matrix")
    ensures "The matrix" == "The" + " " + "matrix"
  {
  }

  /** Literal fact for `TitleExample`, kept apart so the solver checks it in a small context. */
  lemma CapitalizedThe()
    ensures Capitalize("the") == "The"
  {
  }

  /** Every word of a person name is capitalized: "john wick" becomes
      "John Wick". */
  lemma PersonExample()
    ensures CanonicalPerson("john wick") == "John Wick"
  {
    LowerWords("john", "wick");
    JohnWickText();
    CapitalizedJohn();
    CapitalizedWick();
    TwoWordPerson("john", "wick");
  }

  /** Literal fact for `PersonExample`, kept apart so the solver checks it in a small context. */
  lemma JohnWickText()
    ensures "john wick" == "john" + " " + "wick"
    ensures "John Wick" == "John" + " " + "Wick"
  {
  }

  /** Literal fact for `PersonExample`, kept apart so the solver checks it in a small context. */
  lemma CapitalizedJohn()
    ensures Capitalize("john") == "John"
  {
  }

  /** Literal fact for `PersonExample`, kept apart so the solver checks it in a small context. */
  lemma CapitalizedWick()
    ensures Capitalize("wick") == "Wick"
  {
  }
}
