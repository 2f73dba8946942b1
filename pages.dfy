/** The page-concatenation rule shared by both PDF extractors: every page whose text is non-empty
    contributes that text followed by a newline, in page order; empty pages contribute nothing. */
module Pages {
  import opened Text
  import Seqs

  /** What one page contributes to the document text. */
  function Piece(t: string): string
  {
    if t == "" then "" else t + "\n"
  }

  /** The document text built from the page texts `ts`, page by page. Every non-empty page ends
      with a newline, so the text is empty or ends with one. */
  function JoinPages(ts: seq<string>): (r: string)
    ensures r == "" || r[|r| - 1] == '\n'
  {
    if ts == [] then "" else JoinPages(ts[..|ts| - 1]) + Piece(ts[|ts| - 1])
  }

  predicate NonEmpty(t: string)
  {
    t != ""
  }

  /** Adding a page at the end appends that page's piece. */
  lemma JoinSnoc(ts: seq<string>, t: string)
    ensures JoinPages(ts + [t]) == JoinPages(ts) + Piece(t)
  {
    assert (ts + [t])[..|ts|] == ts;
  }

  /** One more page of a prefix: the pass over the first `i + 1` pages appends page `i`'s piece. */
  lemma JoinPrefixStep(ts: seq<string>, i: int)
    requires 0 <= i < |ts|
    ensures JoinPages(ts[..i + 1]) == JoinPages(ts[..i]) + Piece(ts[i])
  {
    assert ts[..i + 1] == ts[..i] + [ts[i]];
    JoinSnoc(ts[..i], ts[i]);
  }

  lemma AppendAssoc(a: string, b: string, c: string)
    ensures a + (b + c) == (a + b) + c
  {
  }

  /** Empty pages contribute nothing: joining all pages equals joining only the non-empty ones. */
  lemma {:induction false} JoinSkipsEmptyPages(ts: seq<string>)
    ensures JoinPages(ts) == JoinPages(Seqs.Filter(ts, NonEmpty))
  {
    if ts != [] {
      var ts' := ts[..|ts| - 1];
      JoinSkipsEmptyPages(ts');
      var f, t := Seqs.Filter(ts', NonEmpty), ts[|ts| - 1];
      if NonEmpty(t) {
        assert Seqs.Filter(ts, NonEmpty) == f + [t];
        assert (f + [t])[..|f|] == f;
      } else {
        assert Seqs.Filter(ts, NonEmpty) == f;
        assert JoinPages(ts) == JoinPages(ts') + "";
      }
    }
  }

  /** The text is empty exactly when every page text is empty. */
  lemma {:induction false} JoinEmptyIff(ts: seq<string>)
    ensures JoinPages(ts) == "" <==> forall i :: 0 <= i < |ts| ==> ts[i] == ""
  {
    if ts != [] {
      var ts' := ts[..|ts| - 1];
      JoinEmptyIff(ts');
      assert forall i :: 0 <= i < |ts'| ==> ts'[i] == ts[i];
    }
  }

  /** A page's piece is blank exactly when its text is: the newline it adds is whitespace. */
  lemma PieceBlankIff(t: string)
    ensures IsBlank(Piece(t)) <==> IsBlank(t)
  {
    if t != "" {
      BlankAppend(t, "\n");
      assert IsSpace('\n');
    }
  }

  lemma AllBlankSnoc(ts: seq<string>, t: string)
    ensures (forall i :: 0 <= i < |ts + [t]| ==> IsBlank((ts + [t])[i]))
      <==> (forall i :: 0 <= i < |ts| ==> IsBlank(ts[i])) && IsBlank(t)
  {
    assert forall i :: 0 <= i < |ts| ==> (ts + [t])[i] == ts[i];
    assert (ts + [t])[|ts|] == t;
  }

  /** The text is blank (`not text.strip()`) exactly when every page text is blank: the newline a
      page adds is itself whitespace, so it never makes the text non-blank. */
  lemma {:induction false} JoinBlankIff(ts: seq<string>)
    ensures IsBlank(JoinPages(ts)) <==> forall i :: 0 <= i < |ts| ==> IsBlank(ts[i])
  {
    if ts != [] {
      var ts', t := ts[..|ts| - 1], ts[|ts| - 1];
      JoinBlankIff(ts');
      assert JoinPages(ts) == JoinPages(ts') + Piece(t);
      BlankAppend(JoinPages(ts'), Piece(t));
      PieceBlankIff(t);
      assert ts == ts' + [t];
      AllBlankSnoc(ts', t);
    }
  }
}
