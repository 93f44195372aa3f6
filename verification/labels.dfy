/** The display label of a resource URI: the text after the last `/`, with
    every `_` turned into a space. Every list getter of data_functions.py
    and both detail pages of app.py derive names this way. */
module Labels {
  import opened PyStr

  /** `str(o).split('/')[-1].replace('_', ' ')`. The label is the part of
      the URI after its last `/` (all of it when there is no `/`), with each
      `_` shown as a space, so it holds neither `/` nor `_`. */
  function Label(uri: string): (name: string)
    ensures '/' !in name && '_' !in name
    ensures |name| <= |uri|
    ensures var k := |uri| - |name|;
            && (k == 0 || uri[k - 1] == '/')
            && '/' !in uri[k..]
            && forall i :: 0 <= i < |name| ==> name[i] == (if uri[k + i] == '_' then ' ' else uri[k + i])
  {
    Replace(LastPiece(uri, '/'), '_', ' ')
  }

  /** `' '.join(str(o).split('/')[-1].split('_'))`, the spelling used by
      `get_directors` and `get_actors`. */
  function LabelByJoin(uri: string): string
  {
    Join(Split(LastPiece(uri, '/'), '_'), " ")
  }

  /** The two spellings of the label derivation agree on every URI. */
  lemma LabelSpellingsAgree(uri: string)
    ensures LabelByJoin(uri) == Label(uri)
  {
    JoinSplitIsReplace(LastPiece(uri, '/'), '_', ' ');
  }

  /** Text that holds no `/` is its own last piece. */
  lemma LastPieceWithoutSlash(s: string)
    requires '/' !in s
    ensures LastPiece(s, '/') == s
  {
  }

  /** Text that holds no `_` is unchanged by the replacement. */
  lemma ReplaceWithoutUnderscore(s: string)
    requires '_' !in s
    ensures Replace(s, '_', ' ') == s
  {
  }

  /** Deriving a label from a label changes nothing. */
  lemma LabelIdempotent(uri: string)
    ensures Label(Label(uri)) == Label(uri)
  {
    var l := Label(uri);
    LastPieceWithoutSlash(l);
    ReplaceWithoutUnderscore(l);
  }

  /** Whatever precedes the last `/` plays no part in the last piece. */
  lemma LastPieceAfterSlash(front: string, tail: string)
    requires '/' !in tail
    ensures LastPiece(front + "/" + tail, '/') == tail
  {
    var s := front + "/" + tail;
    assert s[|front|] == '/';
  }

  /** The worked example: a DBpedia resource URI becomes its title. */
  lemma LabelOfMatrix()
    ensures Label("http://dbpedia.org/resource/The_Matrix") == "The Matrix"
  {
    var front, tail := "http://dbpedia.org/resource", "The_Matrix";
    MatrixUriParts();
    LastPieceAfterSlash(front, tail);
    MatrixTitle();
  }

  /** Literal fact for `LabelOfMatrix`, kept apart so the solver checks it in a small context. */
  lemma MatrixUriParts()
    ensures "http://dbpedia.org/resource/The_Matrix" == "http://dbpedia.org/resource" + "/" + "The_Matrix"
  {
  }

  /** Literal fact for `LabelOfMatrix`, kept apart so the solver checks it in a small context. */
  lemma MatrixTitle()
    ensures Replace("The_Matrix", '_', ' ') == "The Matrix"
  {
    var r := Replace("The_Matrix", '_', ' ');
    assert r[3] == ' ';
  }
}
