/** What every getter of data_functions.py does with the values bound in the
    query response: the list getters (`get_movies`, `get_directors`,
    `get_actors`, `directed`, `starred`, `get_people`) turn them into
    deduplicated parallel lists of labels and URIs; `get_abstract` and
    `get_bio` keep the first value only. The bound values arrive as a
    sequence in the order the parsed response graph yields them. */
module Normalizer {
  import opened Results
  import opened Labels
  import opened OrderedDict
  import opened Seqs

  /** The label of every bound value, in order (the `names` list). */
  function LabelsOf(bindings: seq<string>): (names: seq<string>)
    ensures |names| == |bindings|
    ensures forall i :: 0 <= i < |bindings| ==> names[i] == Label(bindings[i])
  {
    seq(|bindings|, i requires 0 <= i < |bindings| => Label(bindings[i]))
  }

  /** Python's `zip`: pairs up to the shorter of the two lists. */
  function Zip<A, B>(xs: seq<A>, ys: seq<B>): (ps: seq<(A, B)>)
    ensures |ps| == if |xs| <= |ys| then |xs| else |ys|
    ensures forall i :: 0 <= i < |ps| ==> ps[i] == (xs[i], ys[i])
  {
    var n := if |xs| <= |ys| then |xs| else |ys|;
    seq(n, i requires 0 <= i < n => (xs[i], ys[i]))
  }

  /** The dict a list getter builds: label -> URI, assigned binding by binding. */
  function LabelDict(bindings: seq<string>): (d: Dict<string, string>)
    ensures Valid(d)
  {
    FromPairs(Zip(LabelsOf(bindings), bindings))
  }

  /** The pair `(filtered_names, filtered_uris)` a list getter returns:
      `list(d.keys())` and `list(d.values())` of the label dict. */
  function Normalize(bindings: seq<string>): (r: (seq<string>, seq<string>))
  {
    var d := LabelDict(bindings);
    (d.keys, Values(d))
  }

  /** `get_abstract` / `get_bio`: the loop that stops at the first bound
      value, or `None` when nothing is bound. */
  function FirstBinding(bindings: seq<string>): (r: Option<string>)
    ensures r == None <==> |bindings| == 0
    ensures r.Some? ==> r.value == bindings[0]
  {
    if |bindings| == 0 then None else Some(bindings[0])
  }

  /** The pairs the dict is built from have the labels as their keys. */
  lemma PairKeysAreLabels(bindings: seq<string>)
    ensures Firsts(Zip(LabelsOf(bindings), bindings)) == LabelsOf(bindings)
  {
  }

  /** An empty response yields two empty lists. */
  lemma NormalizeEmpty()
    ensures Normalize([]) == ([], [])
  {
  }

  /** The returned names are pairwise distinct, and a name is returned
      exactly when it is the label of some bound value. */
  lemma NormalizeNamesAreDistinctLabels(bindings: seq<string>)
    ensures var (names, _) := Normalize(bindings);
            Distinct(names) && Elements(names) == Elements(LabelsOf(bindings))
  {
    PairKeysAreLabels(bindings);
  }

  /** Both lists have one entry per distinct label, which is at most one per
      bound value. */
  lemma NormalizeLengths(bindings: seq<string>)
    ensures var (names, uris) := Normalize(bindings);
            && |names| == |uris| == |Elements(LabelsOf(bindings))|
            && |names| <= |bindings|
  {
    var d := LabelDict(bindings);
    NormalizeNamesAreDistinctLabels(bindings);
    DistinctCardinality(d.keys);
    ElementsCardinality(LabelsOf(bindings));
  }

  /** The names come in the order in which each label first appears in the
      response. */
  lemma NormalizeFirstSeenOrder(bindings: seq<string>)
    ensures FirstSeenOrder(Normalize(bindings).0, LabelsOf(bindings))
  {
    PairKeysAreLabels(bindings);
    FromPairsKeyOrder(Zip(LabelsOf(bindings), bindings));
  }

  /** Those three facts say all there is to say about the names: a list is
      the returned one exactly when it holds each label once, and in the
      order of first appearance. */
  lemma NormalizeNamesCharacterized(bindings: seq<string>, xs: seq<string>)
    ensures var labels := LabelsOf(bindings);
            xs == Normalize(bindings).0
            <==> Distinct(xs) && Elements(xs) == Elements(labels) && FirstSeenOrder(xs, labels)
  {
    var labels := LabelsOf(bindings);
    var names := Normalize(bindings).0;
    NormalizeNamesAreDistinctLabels(bindings);
    NormalizeFirstSeenOrder(bindings);
    if Distinct(xs) && Elements(xs) == Elements(labels) && FirstSeenOrder(xs, labels) {
      FirstSeenOrderUnique(xs, names, labels);
    }
  }

  /** The URI paired with each name is the LAST bound value carrying that
      label: a later duplicate overwrites the value, though the name keeps
      the position of its first appearance. */
  lemma NormalizeLastUriWins(bindings: seq<string>)
    ensures var (names, uris) := Normalize(bindings);
            var labels := LabelsOf(bindings);
            && |uris| == |names|
            && forall k :: 0 <= k < |names| ==>
                 names[k] in labels && uris[k] == bindings[LastIndex(labels, names[k])]
  {
    var ps := Zip(LabelsOf(bindings), bindings);
    PairKeysAreLabels(bindings);
    FromPairsLastValue(ps);
  }

  /** Consequently each returned URI has its paired name as its label. */
  lemma NormalizePairsAgree(bindings: seq<string>)
    ensures var (names, uris) := Normalize(bindings);
            |uris| == |names| && forall k :: 0 <= k < |names| ==> Label(uris[k]) == names[k]
  {
    NormalizeLastUriWins(bindings);
  }

  /** Two URIs with the same label: one name, paired with the second URI.
      (`http://dbpedia.org/resource/Heat` and `http://example.org/Heat`, say.) */
  lemma LaterDuplicateWins(first: string, second: string)
    requires Label(first) == Label(second)
    ensures Normalize([first, second]) == ([Label(first)], [second])
  {
    DuplicateUri(first, second);
  }

  /** The names half of `LaterDuplicateWins`: two bindings with one label
      leave one name. */
  lemma DuplicateName(first: string, second: string)
    requires Label(first) == Label(second)
    ensures Normalize([first, second]).0 == [Label(first)]
  {
    var b := [first, second];
    LabelsOfPair(first, second);
    ElementsOfTwin(Label(first));
    NormalizeNamesAreDistinctLabels(b);
    NormalizeLengths(b);
    SingleElement(Normalize(b).0, Label(first));
  }

  /** The URIs half of `LaterDuplicateWins`, stated per component because the
      pair equality is cheaper for the solver to check from these two. */
  lemma DuplicateUri(first: string, second: string)
    requires Label(first) == Label(second)
    ensures Normalize([first, second]).0 == [Label(first)]
    ensures Normalize([first, second]).1 == [second]
  {
    var b := [first, second];
    DuplicateName(first, second);
    UriOfName(b, 0);
    LabelsOfPair(first, second);
    LastOfTwin(Label(first));
  }

  /** Step of `LaterDuplicateWins`, kept apart so the solver checks it in a small context. */
  lemma ElementsOfTwin(x: string)
    ensures Elements([x, x]) == {x}
  {
  }

  /** `NormalizeLastUriWins` at a single index, which is all the duplicate
      example needs and is cheaper for the solver to use. */
  lemma UriOfName(bindings: seq<string>, k: nat)
    ensures var (names, uris) := Normalize(bindings);
            k < |names| ==>
            && |uris| == |names|
            && names[k] in LabelsOf(bindings)
            && uris[k] == bindings[LastIndex(LabelsOf(bindings), names[k])]
  {
    NormalizeLastUriWins(bindings);
  }

  /** Step of `LaterDuplicateWins`, kept apart so the solver checks it in a small context. */
  lemma LabelsOfPair(first: string, second: string)
    requires Label(first) == Label(second)
    ensures LabelsOf([first, second]) == [Label(first), Label(first)]
  {
  }

  /** Step of `LaterDuplicateWins`, kept apart so the solver checks it in a small context. */
  lemma LastOfTwin(x: string)
    ensures LastIndex([x, x], x) == 1
  {
  }

  /** Values after the first never change the abstract or bio chosen. */
  lemma FirstBindingIgnoresLater(bindings: seq<string>, more: seq<string>)
    requires |bindings| > 0
    ensures FirstBinding(bindings + more) == FirstBinding(bindings)
  {
  }
}
