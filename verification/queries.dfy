/** The SPARQL text each getter of data_functions.py sends, character for
    character: a fixed template with the caller's parameter spliced in by an
    f-string, without any escaping. */
module Queries {
  import opened Results
  import opened PyStr

  /** The eight queries, named after the getter that sends them. */
  datatype QueryKind =
    | MovieByTitle   // get_movies(title)
    | DirectorsOf    // get_directors(movie_uri)
    | ActorsOf       // get_actors(movie_uri)
    | AbstractOf     // get_abstract(movie_uri)
    | DirectedBy     // directed(person_uri)
    | StarredBy      // starred(person_uri)
    | BioOf          // get_bio(person_uri)
    | PeopleByName   // get_people(person_name)
  {
    /** Free text goes inside a `regex(..., "...", "i")` filter; every other
        parameter is a resource URI written between `<` and `>`. */
    predicate FreeText() {
      MovieByTitle? || PeopleByName?
    }
  }

  /** A query text: the fixed lines before the parameter, the delimiter
      that opens it, the delimiter that closes it, and the fixed text after. */
  datatype Template = Template(head: seq<string>, open: char, close: char, tail: seq<string>)

  // Line breaks followed by the indentation the triple-quoted literals carry.
  const Line: string := "\n        "
  const Inner: string := "\n            "

  const Rdfs: string := "PREFIX rdfs: <http://www.w3.org/2000/01/rdf-schema/>"
  const Dbo: string := "PREFIX dbo: <http://dbpedia.org/ontology/>"
  const Dbr: string := "PREFIX dbr: <http://dbpedia.org/resource/>"
  const Dbp: string := "PREFIX dbp: <http://dbpedia.org/property/>"
  const Foaf: string := "PREFIX foaf: <http://xmlns.com/foaf/0.1/>"

  /** The two triple patterns that restrict `?movie` to films. */
  const Runtime: string := "dbo:runtime ?runtime ;"
  const Cinematography: string := "dbo:cinematography ?cinematographer ."

  /** The result-size limits. */
  const Limit30: string := "} LIMIT 30"
  const Limit1: string := "LIMIT 1"

  /** The English-language filters. */
  const TitleInEnglish: string := "FILTER (lang(?title) = 'en')"
  const NameInEnglish: string := "FILTER (lang(?name) = 'en')"
  const AbstractInEnglish: string := "FILTER (lang(?abstract) = 'en')"

  /** The restriction of `get_people` to people with a film credit. */
  const HasCredit: string := "?movie dbo:starring|dbp:starring|dbo:director|dbp:director ?person ."

  /** The opening of the regex filter on a title or a name, up to the
      quote before its pattern. */
  const TitleRegex: string := "FILTER regex(?title, "
  const NameRegex: string := "FILTER regex(?name, "

  /** The closing of a regex filter after its pattern. */
  const RegexFlags: string := ", \"i\") "

  /** The prefix blocks, each ending with the blank line before `SELECT`. */
  const FourPrefixes: seq<string> := [Line, Rdfs, Line, Dbo, Line, Dbp, Line, Foaf, "\n"]
  const TwoPrefixes: seq<string> := [Line, Dbo, Line, Dbp, "\n"]
  const FivePrefixes: seq<string> := [Line, Rdfs, Line, Dbo, Line, Dbr, Line, Dbp, Line, Foaf, "\n"]

  /** The text around the parameter, for each query. */
  function TemplateOf(kind: QueryKind): Template
  {
    match kind
    case MovieByTitle =>
      Template(
        FourPrefixes + [Line, "SELECT ?movie", Line, "WHERE {",
          Inner, "?movie foaf:name|dbp:name|rdfs:label ?title ;",
          Inner, Runtime, Inner, Cinematography, Inner, TitleRegex],
        '"', '"',
        [RegexFlags, Inner, TitleInEnglish, Line, Limit30, Line])
    case DirectorsOf =>
      Template(
        TwoPrefixes + [Line, "SELECT ?director", Line, "WHERE {", Inner],
        '<', '>',
        [" dbo:director|dbp:director ?director .", Line, "}", Line])
    case ActorsOf =>
      Template(
        TwoPrefixes + [Line, "SELECT ?actor", Line, "WHERE {", Inner],
        '<', '>',
        [" dbo:starring ?actor .", Line, "}", Line])
    case AbstractOf => AbstractTemplate()
    case BioOf => AbstractTemplate()
    case DirectedBy =>
      Template(
        FourPrefixes + [Line, "SELECT ?movie", Line, "WHERE {", Inner, "?movie dbo:director|dbp:director "],
        '<', '>',
        [" ;", Inner, Runtime, Inner, Cinematography, Line, "}", Line])
    case StarredBy =>
      Template(
        FourPrefixes + [Line, "SELECT ?movie", Line, "WHERE {", Inner, "?movie dbo:starring|dbp:starring "],
        '<', '>',
        [" ;", Inner, Runtime, Inner, Cinematography, Line, "}", Line])
    case PeopleByName =>
      Template(
        FourPrefixes + [Line, "SELECT ?person", Line, "WHERE {",
          Inner, "?person foaf:name|dbp:name|rdfs:label ?name .",
          Inner, HasCredit, Inner, NameRegex],
        '"', '"',
        [RegexFlags, Inner, NameInEnglish, Line, "}", Line])
  }

  /** `get_abstract` and `get_bio` send the same text. */
  function AbstractTemplate(): Template
  {
    Template(
      FivePrefixes + [Line, "SELECT ?abstract", Line, "WHERE {", Inner],
      '<', '>',
      [" dbo:abstract ?abstract .", Inner, AbstractInEnglish, Line, "}", Line, Limit1, Line])
  }

  /** The pieces of text written one after the other. */
  function Concat(pieces: seq<string>): string
  {
    if pieces == [] then "" else pieces[0] + Concat(pieces[1..])
  }

  /** A template filled in with `param`, spliced in verbatim. */
  function Render(t: Template, param: string): string
  {
    Concat(t.head) + [t.open] + param + [t.close] + Concat(t.tail)
  }

  /** The query text for `kind` with `param` spliced in verbatim. */
  function QueryText(kind: QueryKind, param: string): string
  {
    Render(TemplateOf(kind), param)
  }

  /** Reads the parameter back out of a text, if the text is one the
      template renders. */
  function ReadParam(t: Template, q: string): (r: Option<string>)
    ensures r.Some? ==> Render(t, r.value) == q
  {
    var before, after := Concat(t.head) + [t.open], [t.close] + Concat(t.tail);
    if |before| + |after| <= |q| && q[..|before|] == before && q[|q| - |after|..] == after
    then
      var p := q[|before|..|q| - |after|];
      assert q == q[..|before|] + p + q[|q| - |after|..];
      Some(p)
    else None
  }

  /** Reads the parameter back out of a query text, if the text is one the
      template for `kind` produces. */
  function ParamOf(kind: QueryKind, q: string): (r: Option<string>)
    ensures r.Some? ==> QueryText(kind, r.value) == q
  {
    ReadParam(TemplateOf(kind), q)
  }

  /** `needle` occurs somewhere in `hay`. */
  predicate Contains(hay: string, needle: string) {
    exists i, j :: 0 <= i <= j <= |hay| && hay[i..j] == needle
  }

  /** A piece of a concatenation occurs in it. */
  lemma {:induction false} ConcatContains(pieces: seq<string>, k: nat)
    requires k < |pieces|
    ensures Contains(Concat(pieces), pieces[k])
  {
    var c := Concat(pieces);
    if k == 0 {
      assert c[0..|pieces[0]|] == pieces[0];
    } else {
      ConcatContains(pieces[1..], k - 1);
      var rest := Concat(pieces[1..]);
      var i, j :| 0 <= i <= j <= |rest| && rest[i..j] == pieces[k];
      assert c[|pieces[0]| + i..|pieces[0]| + j] == rest[i..j];
    }
  }

  /** What occurs in a text occurs in any text around it. */
  lemma ContainsWithin(front: string, hay: string, back: string, needle: string)
    requires Contains(hay, needle)
    ensures Contains(front + hay + back, needle)
  {
    var i, j :| 0 <= i <= j <= |hay| && hay[i..j] == needle;
    assert (front + hay + back)[|front| + i..|front| + j] == hay[i..j];
  }

  /** The last piece of a concatenation ends it. */
  lemma {:induction false} ConcatEndsWithLast(pieces: seq<string>)
    requires |pieces| > 0
    ensures var c, l := Concat(pieces), pieces[|pieces| - 1];
            |l| <= |c| && c[|c| - |l|..] == l
  {
    if |pieces| > 1 {
      ConcatEndsWithLast(pieces[1..]);
    }
  }

  /** Every piece of a template occurs in the text it renders. */
  lemma TemplatePieceRendered(t: Template, param: string, piece: string)
    requires piece in t.head || piece in t.tail
    ensures Contains(Render(t, param), piece)
  {
    if piece in t.head {
      var k :| 0 <= k < |t.head| && t.head[k] == piece;
      ConcatContains(t.head, k);
      var back := [t.open] + param + [t.close] + Concat(t.tail);
      assert Render(t, param) == "" + Concat(t.head) + back;
      ContainsWithin("", Concat(t.head), back, piece);
    } else {
      var k :| 0 <= k < |t.tail| && t.tail[k] == piece;
      ConcatContains(t.tail, k);
      var front := Concat(t.head) + [t.open] + param + [t.close];
      assert Render(t, param) == front + Concat(t.tail) + "";
      ContainsWithin(front, Concat(t.tail), "", piece);
    }
  }

  /** A rendered parameter reads back exactly. */
  lemma RenderRoundTrip(t: Template, param: string)
    ensures ReadParam(t, Render(t, param)) == Some(param)
  {
    var before, after := Concat(t.head) + [t.open], [t.close] + Concat(t.tail);
    var q := Render(t, param);
    assert q == before + param + after;
    assert q[..|before|] == before;
    assert q[|q| - |after|..] == after;
    assert q[|before|..|q| - |after|] == param;
  }

  /** The parameter is spliced in unchanged and can be read back exactly:
      no escaping, and different parameters give different queries. */
  lemma ParamRoundTrip(kind: QueryKind, param: string)
    ensures ParamOf(kind, QueryText(kind, param)) == Some(param)
  {
    RenderRoundTrip(TemplateOf(kind), param);
  }

  /** A rendered parameter sits between the template's two delimiters. */
  lemma RenderDelimited(t: Template, param: string)
    ensures var q, n := Render(t, param), |Concat(t.head)| + 1;
            && n + |param| < |q|
            && q[n..n + |param|] == param
            && q[n - 1] == t.open
            && q[n + |param|] == t.close
  {
  }

  /** Free text sits between the double quotes of a regex filter; a URI
      sits between angle brackets. */
  lemma ParamDelimited(kind: QueryKind, param: string)
    ensures var t, q := TemplateOf(kind), QueryText(kind, param);
            var n := |Concat(t.head)| + 1;
            && n + |param| < |q|
            && q[n..n + |param|] == param
            && q[n - 1] == (if kind.FreeText() then '"' else '<')
            && q[n + |param|] == (if kind.FreeText() then '"' else '>')
  {
    RenderDelimited(TemplateOf(kind), param);
    TemplateDelimiters(kind);
  }

  /** Free-text templates quote their parameter; the others bracket it. */
  lemma TemplateDelimiters(kind: QueryKind)
    ensures TemplateOf(kind).open == (if kind.FreeText() then '"' else '<')
    ensures TemplateOf(kind).close == (if kind.FreeText() then '"' else '>')
  {
  }

  /** The parameter of a rendered template is preceded by the last head
      piece and the opening delimiter, and followed by the closing delimiter
      and the first tail piece. */
  lemma RenderAround(t: Template, param: string)
    requires |t.head| > 0 && |t.tail| > 0
    ensures var q, n := Render(t, param), |Concat(t.head)| + 1;
            var opener, closer := t.head[|t.head| - 1] + [t.open], [t.close] + t.tail[0];
            && |opener| <= n && q[n - |opener|..n] == opener
            && n + |param| + |closer| <= |q| && q[n + |param|..n + |param| + |closer|] == closer
  {
    ConcatEndsWithLast(t.head);
    ConcatStartsWithFirst(t.tail);
    SpliceAround(Concat(t.head), t.open, param, t.close, Concat(t.tail),
                 t.head[|t.head| - 1], t.tail[0]);
  }

  /** The first piece of a concatenation starts it. */
  lemma ConcatStartsWithFirst(pieces: seq<string>)
    requires |pieces| > 0
    ensures var c, f := Concat(pieces), pieces[0];
            |f| <= |c| && c[..|f|] == f
  {
    var c, f := Concat(pieces), pieces[0];
    assert c == f + Concat(pieces[1..]);
  }

  /** In `h + [o] + p + [c] + tl`, a suffix `l` of `h` and the opener stand
      right before `p`, and the closer and a prefix `f` of `tl` right after.
      Stated on plain strings, index by index, so the solver checks it
      without any template in scope. */
  lemma SpliceAround(h: string, o: char, p: string, c: char, tl: string, l: string, f: string)
    requires |l| <= |h| && h[|h| - |l|..] == l
    requires |f| <= |tl| && tl[..|f|] == f
    ensures var q, n := h + [o] + p + [c] + tl, |h| + 1;
            && |l + [o]| <= n && q[n - |l + [o]|..n] == l + [o]
            && n + |p| + |[c] + f| <= |q| && q[n + |p|..n + |p| + |[c] + f|] == [c] + f
  {
    var q, n := h + [o] + p + [c] + tl, |h| + 1;
    var before, after := l + [o], [c] + f;
    forall i | 0 <= i < |before|
      ensures q[n - |before|..n][i] == before[i]
    {
      if i < |l| {
        assert q[n - |before| + i] == h[|h| - |l| + i];
      }
    }
    forall i | 0 <= i < |after|
      ensures q[n + |p|..n + |p| + |after|][i] == after[i]
    {
      if i > 0 {
        assert q[n + |p| + i] == tl[i - 1];
      }
    }
  }

  /** Free text is the pattern of a regex filter: before it stands
      `FILTER regex(?title, "` (`?name` for the people search), after it
      `", "i") `. */
  lemma FreeTextInRegex(kind: QueryKind, text: string)
    requires kind.FreeText()
    ensures var q, n := QueryText(kind, text), |Concat(TemplateOf(kind).head)| + 1;
            var opener := (if kind == MovieByTitle then TitleRegex else NameRegex) + "\"";
            var closer := "\"" + RegexFlags;
            && |opener| <= n && q[n - |opener|..n] == opener
            && n + |text| + |closer| <= |q| && q[n + |text|..n + |text| + |closer|] == closer
  {
    RegexPieces(kind);
    RenderAround(TemplateOf(kind), text);
  }

  /** The pieces around the parameter of the two free-text templates. */
  lemma RegexPieces(kind: QueryKind)
    requires kind.FreeText()
    ensures var t := TemplateOf(kind);
            && |t.head| > 0 && |t.tail| > 0
            && t.head[|t.head| - 1] + [t.open] == (if kind == MovieByTitle then TitleRegex else NameRegex) + "\""
            && [t.close] + t.tail[0] == "\"" + RegexFlags
  {
  }

  /** The film searches and the filmography queries only match resources
      that have a runtime and a cinematographer. */
  lemma FilmQueriesRequireFilmProperties(kind: QueryKind, param: string)
    requires kind == MovieByTitle || kind == DirectedBy || kind == StarredBy
    ensures Contains(QueryText(kind, param), Runtime)
    ensures Contains(QueryText(kind, param), Cinematography)
  {
    var t := TemplateOf(kind);
    if kind == MovieByTitle {
      assert t.head[|FourPrefixes| + 7] == Runtime;
      assert t.head[|FourPrefixes| + 9] == Cinematography;
    } else {
      assert t.tail[2] == Runtime;
      assert t.tail[4] == Cinematography;
    }
    TemplatePieceRendered(t, param, Runtime);
    TemplatePieceRendered(t, param, Cinematography);
  }

  /** The title search is limited to 30 results: the text ends with
      `} LIMIT 30` followed only by whitespace. */
  lemma MovieQueryEndsWithLimit30(title: string)
    ensures var q := QueryText(MovieByTitle, title);
            && |Limit30| + |Line| <= |q|
            && q[|q| - |Line| - |Limit30|..|q| - |Line|] == Limit30
            && AllSpace(q[|q| - |Line|..])
  {
    var t := TemplateOf(MovieByTitle);
    var front := t.tail[..4];
    assert t.tail == front + [Limit30, Line];
    ConcatSplit(front, [Limit30, Line]);
    assert [Limit30, Line][1..] == [Line];
    assert Concat([Line]) == Line + Concat([]);
    assert Concat([Limit30, Line]) == Limit30 + Line;
  }

  /** Concatenation distributes over appending the pieces. */
  lemma {:induction false} ConcatSplit(xs: seq<string>, ys: seq<string>)
    ensures Concat(xs + ys) == Concat(xs) + Concat(ys)
  {
    if xs == [] {
      assert xs + ys == ys;
    } else {
      assert (xs + ys)[1..] == xs[1..] + ys;
      ConcatSplit(xs[1..], ys);
    }
  }

  /** The abstract and bio queries ask for one English value only. */
  lemma AbstractQueryLimitedToOne(kind: QueryKind, uri: string)
    requires kind == AbstractOf || kind == BioOf
    ensures Contains(QueryText(kind, uri), Limit1)
    ensures Contains(QueryText(kind, uri), AbstractInEnglish)
  {
    var t := TemplateOf(kind);
    assert t.tail[2] == AbstractInEnglish;
    assert t.tail[6] == Limit1;
    TemplatePieceRendered(t, uri, Limit1);
    TemplatePieceRendered(t, uri, AbstractInEnglish);
  }

  /** Free-text searches only match English labels, and the people search
      only matches people with a film credit. */
  lemma FreeTextQueriesFilterEnglish(kind: QueryKind, text: string)
    requires kind.FreeText()
    ensures Contains(QueryText(kind, text), if kind == MovieByTitle then TitleInEnglish else NameInEnglish)
    ensures kind == PeopleByName ==> Contains(QueryText(kind, text), HasCredit)
  {
    var t := TemplateOf(kind);
    if kind == MovieByTitle {
      assert t.tail[2] == TitleInEnglish;
      TemplatePieceRendered(t, text, TitleInEnglish);
    } else {
      assert t.tail[2] == NameInEnglish;
      assert t.head[|FourPrefixes| + 7] == HasCredit;
      TemplatePieceRendered(t, text, NameInEnglish);
      TemplatePieceRendered(t, text, HasCredit);
    }
  }

  /** `get_abstract` and `get_bio` send the same query for the same URI. */
  lemma AbstractAndBioQueriesAgree(uri: string)
    ensures QueryText(AbstractOf, uri) == QueryText(BioOf, uri)
  {
  }
}
