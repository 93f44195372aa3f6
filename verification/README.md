# MovieFinder core, modelled in Dafny

MovieFinder is a small Flask site over DBpedia. A user types a movie title or a
person's name. The site sends a SPARQL query to a remote endpoint and lists the
matching resources. Each list entry links to a detail page, which sends further
queries: directors, actors and abstract for a movie; bio and filmography for a
person.

The model covers the logic that runs locally:

- **Label derivation.** A resource URI becomes a display name. The name is the
  text after the last `/`, with `_` shown as a space. It is written two ways in
  the source (`replace('_', ' ')` and `' '.join(split('_'))`).
- **Deduplication.** The list getters (`get_movies`, `get_directors`,
  `get_actors`, `directed`, `starred`, `get_people`) pass the bound values
  through an insertion-ordered Python dict keyed by label. Each getter returns
  the dict's keys and values as two parallel lists.
- **First binding.** `get_abstract` and `get_bio` return the first bound value,
  or `None`.
- **Query text.** Each of the eight queries is a fixed f-string template with
  the parameter spliced in. The model keeps the exact text, including newlines
  and indentation.
- **Input canonicalisation** in `app.py`. A typed title has only its first word
  capitalised, and an empty title raises `IndexError`. A typed person name has
  every word capitalised. A detail page takes its heading from the `uri`
  argument, using the same label derivation.

Modules, one concept each:

| file | module | what it holds |
|---|---|---|
| `results.dfy` | `Results` | `Option` (Python `None`) and `Result` (a raised exception) |
| `seqs.dfy` | `Seqs` | plain sequence facts: distinctness, element sets, first and last index |
| `pystr.dfy` | `PyStr` | the Python `str` operations used: `split(c)`, `split()`, `join`, `replace`, `capitalize`, `isspace` |
| `labels.dfy` | `Labels` | URI → display label |
| `ordered_dict.dfy` | `OrderedDict` | Python's insertion-ordered dict: keys in insertion order plus a `map` |
| `normalizer.dfy` | `Normalizer` | bound values → deduplicated `(names, uris)`; first binding |
| `queries.dfy` | `Queries` | the eight SPARQL query texts |
| `app.dfy` | `App` | title and person canonicalisation, detail-page heading, search queries |

`PyStr.IsSpace` is Python's `str.isspace` set exactly, including U+001C–U+001F
and the Unicode space characters, so `PyStr.SplitWhitespace` splits as `str.split()`
does.

The remote response is not modelled. The values bound in it are given as a
`seq<string>`, in the order the parsed graph yields them. Every ordering claim
is relative to that sequence.

Three behaviours of the code are worth stating plainly:

- **Duplicate labels.** A list getter assigns `d[name] = uri` for every binding.
  A Python dict keeps a key at its first insertion position but overwrites its
  value. So each name keeps the position where its label first appeared, and
  it is paired with the **last** URI carrying that label
  (`Normalizer.NormalizeLastUriWins`, `Normalizer.LaterDuplicateWins`).
- **Title capitalisation.** Only the first word of a title is capitalised
  (`App.TitleWords`, `App.TitleExample`). Every word of a person's name is
  capitalised.
- **Empty responses and parse failures.** A parse error propagates. An empty
  response yields `([], [])` or `None`.

## Model

| member | source | states |
|---|---|---|
| `PyStr.Split` | data_functions.py:77 | `s.split(c)` yields at least one piece and no piece contains `c`. Joining the pieces with `c` gives back `s`. |
| `PyStr.Join` | app.py:17 | No contract of its own: the body is `sep.join(parts)`, the pieces with `sep` between consecutive ones. It is pinned down by `PyStr.Split` (joining the pieces of `s.split(c)` with `c` gives `s`), `PyStr.SplitJoinWords` and `PyStr.JoinWordsWellSpaced`. |
| `PyStr.LastPiece` | data_functions.py:39 | `s.split('/')[-1]` contains no `/` and is a suffix of `s`. It is either all of `s` or directly preceded by a `/`, so it is the text after the last `/`. |
| `PyStr.Replace` | data_functions.py:39 | `s.replace(a, b)` has the length of `s`; each character equal to `a` becomes `b` and every other character is kept. |
| `PyStr.JoinSplitIsReplace` | data_functions.py:77 | Splitting on one character and joining with another equals replacing the first character by the second throughout. |
| `PyStr.SplitWhitespace` | app.py:15 | `str.split()` yields non-empty words without whitespace. It yields no words exactly when the input is empty or all whitespace. |
| `PyStr.SplitAtSpace` | app.py:15 | Any whitespace character splits the text into the words before it followed by the words after it. |
| `PyStr.SplitWord` | app.py:15 | A non-empty run of non-whitespace characters splits to itself. With `PyStr.SplitAtSpace` and the all-whitespace case, this fixes `split()` on every string. |
| `PyStr.SplitJoinWords` | app.py:17 | Joining `split()` words with single spaces and splitting again gives back the same words. |
| `PyStr.JoinWordsWellSpaced` | app.py:17 | Words joined with `' '` have no whitespace at either end. Every whitespace character in the result is a single space followed by a non-space. |
| `PyStr.Capitalize` | app.py:16 | `w.capitalize()` keeps the length, upper-cases the first character, lower-cases the rest, and leaves every whitespace character where it was (ASCII letters only, see below). |
| `PyStr.CapitalizeIdempotent` | app.py:16 | `capitalize()` applied twice gives the same result as applied once. |
| `Labels.Label` | data_functions.py:39 | The label contains neither `/` nor `_`. It is the URI's text after its last `/` (all of the URI if there is none), with each `_` replaced by a space and every other character kept. |
| `Labels.LabelSpellingsAgree` | data_functions.py:77 | `' '.join(x.split('/')[-1].split('_'))` (`get_directors`, `get_actors`) equals `x.split('/')[-1].replace('_', ' ')` (line 39) for every URI. |
| `Labels.LabelByJoin` | data_functions.py:77 | No contract of its own: the body is `' '.join(x.split('/')[-1].split('_'))`. `Labels.LabelSpellingsAgree` proves it equal to `Labels.Label` on every URI, so `Label`'s contract describes it. |
| `Labels.LabelIdempotent` | data_functions.py:39 | Deriving a label from a label changes nothing. |
| `Labels.LabelOfMatrix` | data_functions.py:325 | `http://dbpedia.org/resource/The_Matrix` gets the label `The Matrix`. |
| `OrderedDict.Assign` | data_functions.py:43 | `d[k] = v` keeps the dict well formed and sets `k`'s value. An existing key keeps its position. A new key goes to the end. |
| `OrderedDict.FromPairs` | data_functions.py:41-43 | The dict built by assigning pairs in order is well formed. Its keys are exactly the keys of the pairs. |
| `OrderedDict.FromPairsKeyOrder` | data_functions.py:45 | The dict's keys come in the order each key first occurs among the pairs. |
| `OrderedDict.FromPairsLastValue` | data_functions.py:42-43 | Each key's value comes from the last pair with that key. |
| `OrderedDict.FirstSeenOrderUnique` | data_functions.py:41-45 | Two lists with no repeats, the same elements and first-seen order relative to one stream are equal. |
| `Normalizer.LabelDict` | data_functions.py:41-43 | The label → URI dict a list getter builds is well formed. |
| `Normalizer.Normalize` | data_functions.py:41-48 | No contract of its own: the body is `(list(d.keys()), list(d.values()))` of the label dict. It is pinned down by `Normalizer.NormalizeNamesCharacterized` (the names), `Normalizer.NormalizeLastUriWins` (the URIs) and `Normalizer.NormalizeLengths`. |
| `Normalizer.NormalizeEmpty` | data_functions.py:36-48 | An empty response gives `([], [])`. |
| `Normalizer.NormalizeNamesAreDistinctLabels` | data_functions.py:41-45 | The returned names are pairwise distinct. They are exactly the labels of the bound values, as a set. |
| `Normalizer.NormalizeLengths` | data_functions.py:45-48 | Names and URIs have equal length. That length equals the number of distinct labels and is at most the number of bound values. |
| `Normalizer.NormalizeFirstSeenOrder` | data_functions.py:41-45 | Names appear in the order in which each label first occurs in the response. |
| `Normalizer.NormalizeNamesCharacterized` | data_functions.py:41-45 | A list is the returned names list exactly when it holds each label once, in first-seen order. This holds in both directions. |
| `Normalizer.NormalizeLastUriWins` | data_functions.py:42-46 | The URI paired with each name is the last bound value carrying that label. |
| `Normalizer.NormalizePairsAgree` | data_functions.py:81-85 | Each returned URI's label equals the name it is paired with. |
| `Normalizer.LaterDuplicateWins` | data_functions.py:120-124 | Two bound URIs with the same label give one name, paired with the second URI. |
| `Normalizer.FirstBinding` | data_functions.py:158-163 | `get_abstract` returns `None` exactly when nothing is bound. Otherwise it returns the first bound value. |
| `Normalizer.FirstBindingIgnoresLater` | data_functions.py:284-289 | Values bound after the first never change the bio or abstract returned. |
| `Queries.ParamOf` | data_functions.py:13-27 | Any parameter read back from a query text rebuilds that exact text. |
| `Queries.ParamRoundTrip` | data_functions.py:24 | The parameter is spliced in unescaped: reading it back from the query gives exactly the parameter. Different parameters therefore give different queries. |
| `Queries.ParamDelimited` | data_functions.py:24 | Free text (title, person name) sits between two `"` characters. A URI sits between `<` and `>`. |
| `Queries.FreeTextInRegex` | data_functions.py:24 | Free text is preceded by `FILTER regex(?title, "` (`FILTER regex(?name, "` for the people search, line 310) and followed by `", "i")`. |
| `Queries.FilmQueriesRequireFilmProperties` | data_functions.py:182-184 | The title search, `directed` and `starred` queries contain the runtime and cinematography patterns that restrict results to films. |
| `Queries.MovieQueryEndsWithLimit30` | data_functions.py:26 | The title-search query ends with `} LIMIT 30` followed only by whitespace. |
| `Queries.AbstractQueryLimitedToOne` | data_functions.py:144-148 | The abstract and bio queries contain the English-language filter and `LIMIT 1`. |
| `Queries.FreeTextQueriesFilterEnglish` | data_functions.py:308-311 | Free-text searches filter labels to English. The people search also requires a starring or director credit. |
| `Queries.AbstractAndBioQueriesAgree` | data_functions.py:262-275 | `get_bio` sends the same text as `get_abstract` for the same URI. |
| `Queries.TemplateOf` | data_functions.py:13-27 | No contract of its own: the body holds the fixed text of the eight f-strings, this one (`get_movies`) and those at lines 58-66, 97-105, 136-149, 174-186, 218-230, 262-275 and 300-313. Its pieces are stated by `Queries.FilmQueriesRequireFilmProperties`, `Queries.MovieQueryEndsWithLimit30`, `Queries.AbstractQueryLimitedToOne`, `Queries.FreeTextQueriesFilterEnglish` and `Queries.FreeTextInRegex`. |
| `Queries.QueryText` | data_functions.py:24 | No contract of its own: the body splices the parameter into the template verbatim, as the f-string does. It is pinned down by `Queries.ParamRoundTrip`, `Queries.ParamOf` and `Queries.ParamDelimited`. |
| `App.CanonicalTitle` | app.py:15-17 | Title canonicalisation fails (IndexError) exactly when the input is empty or all whitespace. |
| `App.DisplayName` | app.py:29 | A detail-page heading contains no `/` and no `_`. |
| `App.MoviesQuery` | app.py:14-18 | A movie search raises before any query is sent exactly when the title is blank. |
| `App.CanonicalPerson` | app.py:46 | No contract of its own: the body is `' '.join([w.capitalize() for w in s.split()])`. It is pinned down by `App.PersonWords`, `App.PersonWellSpaced`, `App.PersonBlankIsEmpty` and `App.PersonIdempotent`. |
| `App.PeopleQuery` | app.py:46-47 | No contract of its own: the body is the `get_people` query for the canonical name. `App.PeopleQueryCarriesName` states that the name reads back from it verbatim. |
| `App.TitleWords` | app.py:15-17 | The canonical title splits back into the input's words: the first is capitalised and the rest are unchanged. |
| `App.PersonWords` | app.py:46 | The canonical person name splits back into the input's words, each capitalised. |
| `App.TitleWellSpaced` | app.py:17 | A canonical title has no leading or trailing whitespace and no consecutive spaces. |
| `App.PersonWellSpaced` | app.py:46 | A canonical person name has no leading or trailing whitespace and no consecutive spaces. |
| `App.PersonBlankIsEmpty` | app.py:45-46 | A person name canonicalises to `""` exactly when the input is blank. |
| `App.TitleIdempotent` | app.py:15-16 | Canonicalising a canonical title changes nothing. |
| `App.PersonIdempotent` | app.py:44-46 | Canonicalising a canonical person name changes nothing. |
| `App.MoviesQueryCarriesTitle` | app.py:18 | The movie query carries the canonical title verbatim. |
| `App.PeopleQueryCarriesName` | app.py:47 | The people query carries the canonical person name verbatim. |
| `App.DisplayNameMatchesListing` | app.py:58 | The label of the URI paired with a listed name is that name, so a detail page given that URI shows that name as its heading. |
| `App.DisplayNameWhenMissing` | app.py:28 | Without a `uri` argument, the heading is `None` (from `str(None)`). |
| `App.TitleLeadingSpace` | app.py:15 | Whitespace in front of a typed title does not change the canonical title. |
| `App.TwoWordTitle` | app.py:16 | For a two-word title, only the first word is capitalised. |
| `App.TwoWordPerson` | app.py:46 | For a two-word person name, both words are capitalised. |
| `App.TitleExample` | app.py:17 | `" the matrix"` canonicalises to `"The matrix"`. |
| `App.PersonExample` | app.py:46 | `"john wick"` canonicalises to `"John Wick"`. |

## Left out

- Network and parsing. `SPARQLWrapper`, the HTTP call to the endpoint and Turtle parsing with `rdflib.Graph` are foreign libraries and I/O. The bound values are an input sequence. rdflib does not specify its triple order, so ordering results hold for whatever order the parser yields.
- SPARQL meaning. The regex and language filters and the property paths run on the remote endpoint. The model fixes the query text, not what the endpoint does with it.
- Flask. Routing, `request.form` / `request.args`, `render_template` and the page templates are not modelled. So are the `len(...)` counts and `zip(...)` pairs handed to templates. A missing form field (`KeyError`) is not modelled either.
- `URIRef` versus `str`. Some getters keep the bound value as a `URIRef` and some as `str(o)`. Both are modelled as strings.
- `PyStr.Capitalize`: Python's `capitalize` title-cases the first character and lower-cases the rest under full Unicode case mapping (`ß`, `ǆ`, …). The model maps ASCII letters only and leaves every other character unchanged. So `App.TitleIdempotent` and `App.PersonIdempotent` are stated for this ASCII mapping.
- Link transport. The listing page links to a detail page through the page templates and URL query-string encoding, neither of which is modelled. `App.DisplayNameMatchesListing` holds for the `uri` argument the detail page receives. A URI containing `&`, `#`, `+` or `%` (such as `http://dbpedia.org/resource/Fast_&_Furious`) arrives unchanged only if the template encodes it.
- Remote failures and timeouts are not modelled: the source does not handle them.
