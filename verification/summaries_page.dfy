/** The summaries page search: while loading nothing is listed, a blank term lists every
    summary, and otherwise a summary is kept when the lower-cased term, untrimmed, occurs in
    its lower-cased title, file name or content. */
module SummariesPage {
  import opened Text
  import Seqs

  /** A meeting summary as the page reads it. An absent title is the empty string. */
  datatype Summary = Summary(id: string, title: string, filename: string, content: string, createdAt: string)

  /** The lower-cased term occurs in one of the three searched fields. */
  predicate SummaryMatches(s: Summary, term: string) {
    || Contains(ToLower(s.title), ToLower(term))
    || Contains(ToLower(s.filename), ToLower(term))
    || Contains(ToLower(s.content), ToLower(term))
  }

  /** `filteredSummaries` */
  function FilterSummaries(summaries: seq<Summary>, loading: bool, term: string): (r: seq<Summary>)
    ensures loading ==> r == []
    ensures !loading && Trim(term) == "" ==> r == summaries
    ensures Seqs.IsSubsequence(r, summaries)
    ensures !loading && Trim(term) != "" ==> forall s :: s in r <==> s in summaries && SummaryMatches(s, term)
  {
    if loading then []
    else if Trim(term) == "" then Seqs.SubsequenceRefl(summaries); summaries
    else Seqs.Filter(s => SummaryMatches(s, term), summaries)
  }

  /** A character of the pattern occurs in any string that contains the pattern. */
  lemma ContainsChar(x: string, p: string, c: char)
    requires Contains(x, p) && c in p
    ensures c in x
  {
    var i :| 0 <= i <= |x| && OccursAt(x, p, i);
    var k :| 0 <= k < |p| && p[k] == c;
    assert x[i..i + |p|][k] == x[i + k];
  }

  /** A space survives lower-casing, and only a space becomes one. */
  lemma SpaceInLower(x: string)
    ensures ' ' in ToLower(x) <==> ' ' in x
  {
    if ' ' in x {
      var k :| 0 <= k < |x| && x[k] == ' ';
      assert ToLower(x)[k] == ' ';
    }
    if ' ' in ToLower(x) {
      var k :| 0 <= k < |x| && ToLower(x)[k] == ' ';
      assert x[k] == ' ';
    }
  }

  /** The term is matched as typed, not trimmed: a term holding a space (a trailing one
      included) keeps only summaries with a space in the title, file name or content. */
  lemma SpacedTermNeedsSpacedField(s: Summary, term: string)
    requires ' ' in term && SummaryMatches(s, term)
    ensures ' ' in s.title || ' ' in s.filename || ' ' in s.content
  {
    SpaceInLower(term);
    SpaceInLower(s.title);
    SpaceInLower(s.filename);
    SpaceInLower(s.content);
    if Contains(ToLower(s.title), ToLower(term)) {
      ContainsChar(ToLower(s.title), ToLower(term), ' ');
    } else if Contains(ToLower(s.filename), ToLower(term)) {
      ContainsChar(ToLower(s.filename), ToLower(term), ' ');
    } else {
      ContainsChar(ToLower(s.content), ToLower(term), ' ');
    }
  }
}
