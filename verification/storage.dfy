/**
  The pure parts of the JSON/Markdown store: removing papers whose arXiv
  id is missing or already seen, and the author line of the Markdown
  report. Papers are dictionaries as produced by `Paper.to_dict` or the
  legacy crawlers.
 */
module Storage {
  import opened Text
  import opened Values
  import opened Dedup

  /** `paper.get('arxiv_id')` */
  function IdOf(p: Dict): Value {
    Get(p, "arxiv_id", Nil)
  }

  /** The id is truthy: present, not None and not empty. */
  predicate HasId(p: Dict) {
    Truthy(IdOf(p))
  }

  /**
    The loop of `deduplicate_papers` from a given `seen_ids` set: a paper
    is kept when its id is truthy and not yet seen, and its id is then
    recorded.
   */
  function DedupIds(ps: seq<Dict>, seen: set<Value>): (r: seq<Dict>)
    ensures |r| <= |ps|
    decreases |ps|
  {
    if |ps| == 0 then []
    else if HasId(ps[0]) && IdOf(ps[0]) !in seen then [ps[0]] + DedupIds(ps[1..], seen + {IdOf(ps[0])})
    else DedupIds(ps[1..], seen)
  }

  /**
    The loop is first-occurrence dedup by id applied to the papers that
    have an id.
   */
  lemma {:induction false} DedupIdsIsFirstByKey(ps: seq<Dict>, seen: set<Value>)
    ensures DedupIds(ps, seen) == FirstByKey(Filter(ps, HasId), IdOf, seen)
    decreases |ps|
  {
    if |ps| > 0 {
      if HasId(ps[0]) {
        assert Filter(ps, HasId) == [ps[0]] + Filter(ps[1..], HasId);
        assert ([ps[0]] + Filter(ps[1..], HasId))[1..] == Filter(ps[1..], HasId);
        if IdOf(ps[0]) in seen {
          DedupIdsIsFirstByKey(ps[1..], seen);
        } else {
          DedupIdsIsFirstByKey(ps[1..], seen + {IdOf(ps[0])});
        }
      } else {
        DedupIdsIsFirstByKey(ps[1..], seen);
      }
    }
  }

  /**
    `deduplicate_papers`: a subsequence of the input in which every paper
    has a truthy id, the ids are pairwise distinct, every truthy input id
    survives, and each survivor is the first input paper with its id.
   */
  function Deduplicate(ps: seq<Dict>): (r: seq<Dict>)
    ensures |r| <= |ps|
    ensures IsSubsequence(r, ps)
    ensures forall i :: 0 <= i < |r| ==> HasId(r[i])
    ensures forall i, j :: 0 <= i < j < |r| ==> IdOf(r[i]) != IdOf(r[j])
    ensures KeysOf(r, IdOf) == KeysOf(Filter(ps, HasId), IdOf)
    ensures forall x :: x in r ==> exists i :: 0 <= i < |Filter(ps, HasId)| && Filter(ps, HasId)[i] == x && IsFirst(Filter(ps, HasId), IdOf, i)
  {
    DedupIdsIsFirstByKey(ps, {});
    DeduplicateShape(ps);
    DeduplicateFirsts(ps);
    DedupIds(ps, {})
  }

  lemma DeduplicateShape(ps: seq<Dict>)
    ensures var r := FirstByKey(Filter(ps, HasId), IdOf, {});
      && IsSubsequence(r, ps)
      && (forall i :: 0 <= i < |r| ==> HasId(r[i]))
      && (forall i, j :: 0 <= i < j < |r| ==> IdOf(r[i]) != IdOf(r[j]))
  {
    var kept := Filter(ps, HasId);
    var r := FirstByKey(kept, IdOf, {});
    FilterSubsequence(ps, HasId);
    FirstByKeySubsequence(kept, IdOf, {});
    SubsequenceTrans(r, kept, ps);
    FirstByKeyDistinct(kept, IdOf, {});
    SubsequenceMembers(r, kept);
    forall i | 0 <= i < |r| ensures HasId(r[i]) {
      assert r[i] in kept;
      var j :| 0 <= j < |kept| && kept[j] == r[i];
    }
  }

  lemma DeduplicateFirsts(ps: seq<Dict>)
    ensures var kept := Filter(ps, HasId);
      var r := FirstByKey(kept, IdOf, {});
      && KeysOf(r, IdOf) == KeysOf(kept, IdOf)
      && (forall x :: x in r ==> exists i :: 0 <= i < |kept| && kept[i] == x && IsFirst(kept, IdOf, i))
  {
    var kept := Filter(ps, HasId);
    FirstByKeyKeys(kept, IdOf, {});
    FirstByKeyIsFirsts(kept, IdOf);
    FirstsComplete(kept, IdOf);
    FirstsSound(kept, IdOf);
  }

  /** Every element of a subsequence is an element of the whole. */
  lemma {:induction false} SubsequenceMembers<T>(a: seq<T>, b: seq<T>)
    requires IsSubsequence(a, b)
    ensures forall x :: x in a ==> x in b
    decreases |b|
  {
    if |a| > 0 && |b| > 0 {
      if a[0] == b[0] && IsSubsequence(a[1..], b[1..]) {
        SubsequenceMembers(a[1..], b[1..]);
        assert a == [a[0]] + a[1..];
        assert b == [b[0]] + b[1..];
      } else {
        SubsequenceMembers(a, b[1..]);
        assert b == [b[0]] + b[1..];
      }
    }
  }

  /** Filtering keeps exactly the papers with a truthy id. */
  lemma FilterHasId(ps: seq<Dict>)
    ensures forall p :: p in Filter(ps, HasId) <==> p in ps && HasId(p)
  {
    FilterMembers(ps, HasId);
  }

  /** A paper without a truthy id never survives. */
  lemma DropsMissingIds(ps: seq<Dict>, p: Dict)
    requires !HasId(p)
    ensures p !in Deduplicate(ps)
  {
  }

  /** Deduplicating twice is deduplicating once. */
  lemma DeduplicateIdempotent(ps: seq<Dict>)
    ensures Deduplicate(Deduplicate(ps)) == Deduplicate(ps)
  {
    var r := Deduplicate(ps);
    DedupIdsIsFirstByKey(r, {});
    FilterAll(r, HasId);
    FirstByKeyOfDistinct(r, IdOf, {});
  }

  /** Filtering a list whose elements all pass returns it unchanged. */
  lemma {:induction false} FilterAll<T>(xs: seq<T>, p: T -> bool)
    requires forall i :: 0 <= i < |xs| ==> p(xs[i])
    ensures Filter(xs, p) == xs
    decreases |xs|
  {
    if |xs| > 0 {
      FilterAll(xs[1..], p);
      assert xs == [xs[0]] + xs[1..];
    }
  }

  /**
    A later paper with an id already seen is dropped, the earlier one
    kept: the second of two papers with the same id disappears.
   */
  lemma KeepsFirstOfRepeat(a: Dict, b: Dict)
    requires HasId(a) && IdOf(a) == IdOf(b)
    ensures Deduplicate([a, b]) == [a]
  {
    assert [a, b][1..] == [b];
    assert [b][1..] == [];
    assert DedupIds([b], {IdOf(a)}) == [];
    assert DedupIds([a, b], {}) == [a] + DedupIds([b], {IdOf(a)});
  }

  // ---------------------------------------------------------------------------
  // Markdown author line
  // ---------------------------------------------------------------------------

  const MaxListedAuthors: nat := 3

  /** `", ".join(authors[:3])`, followed by `" et al."` when there are more than three. */
  function AuthorLine(authors: seq<string>): (r: string)
    ensures |authors| <= MaxListedAuthors ==> r == Join(authors, ", ")
    ensures |authors| > MaxListedAuthors ==> r == Join(authors[..MaxListedAuthors], ", ") + " et al."
  {
    Join(Take(authors, MaxListedAuthors), ", ") + (if |authors| > MaxListedAuthors then " et al." else "")
  }

  /** Only the first four authors matter: the fourth decides the suffix and the rest are never shown. */
  lemma AuthorLineFirstFour(authors: seq<string>, more: seq<string>)
    requires |authors| >= 4
    ensures AuthorLine(authors + more) == AuthorLine(authors[..4])
  {
    assert (authors + more)[..3] == authors[..4][..3] == authors[..3];
  }

  /** With exactly three authors the line lists all three with no suffix. */
  lemma AuthorLineThree(a: string, b: string, c: string)
    ensures AuthorLine([a, b, c]) == a + ", " + b + ", " + c
  {
    assert Take([a, b, c], 3) == [a, b, c];
    assert [a, b, c][1..] == [b, c];
    assert [b, c][1..] == [c];
    assert Join([b, c], ", ") == b + ", " + c;
    assert Join([a, b, c], ", ") == a + ", " + (b + ", " + c);
  }
}
