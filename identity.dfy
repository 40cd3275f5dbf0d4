/**
 * The `PullRequest` wrapper: a pull request whose equality and hash are its number alone,
 * and the `HashSet` of such wrappers that collects the pull requests concerning the viewer.
 */
module Identity {
  import opened Wrappers
  import opened GitHub

  /** The wrapper around a borrowed API pull request. */
  datatype PullRequest = PullRequest(pr: GhPullRequest)

  /** `PartialEq::eq`: two wrappers are equal when their numbers are. */
  function Eq(p: PullRequest, q: PullRequest): (r: bool)
    ensures r <==> HashInput(p) == HashInput(q)
  {
    p.pr.number == q.pr.number
  }

  /** `Hash::hash` feeds the number, and only the number, to the hasher. */
  function HashInput(p: PullRequest): (h: nat)
    ensures h == p.pr.number
  {
    p.pr.number
  }

  /** `Eq` is an equivalence relation, as `impl Eq` promises. */
  lemma EqIsEquivalence(p: PullRequest, q: PullRequest, o: PullRequest)
    ensures Eq(p, p)
    ensures Eq(p, q) ==> Eq(q, p)
    ensures Eq(p, q) && Eq(q, o) ==> Eq(p, o)
  {
  }

  /** Equal wrappers hash alike, as `HashSet` requires. */
  lemma HashAgreesWithEq(p: PullRequest, q: PullRequest)
    ensures Eq(p, q) ==> HashInput(p) == HashInput(q)
  {
  }

  /** Two wrappers are equal iff their numbers are: no field other than the number matters. */
  lemma EqIgnoresOtherFields(p: PullRequest, q: PullRequest)
    ensures Eq(p, q) <==> p.pr.number == q.pr.number
    ensures Eq(p, q) <==> Eq(PullRequest(p.pr.(title := None, body := None)), q)
  {
  }

  /**
   * `HashSet<PullRequest>`: since equality is by number, the set is a map from a number to
   * the one element stored under it.
   */
  type PrSet = map<nat, GhPullRequest>

  /** Every element is stored under its own number. */
  predicate ValidSet(s: PrSet)
  {
    forall n | n in s :: s[n].number == n
  }

  /** `HashSet::contains`: some element is equal to `p`. */
  predicate Has(s: PrSet, p: PullRequest)
  {
    p.pr.number in s
  }

  /**
   * `HashSet::insert`: adds `p` unless an equal element is already there; an element that is
   * already there is kept, not replaced.
   */
  function Insert(s: PrSet, p: PullRequest): (r: PrSet)
    requires ValidSet(s)
    ensures ValidSet(r)
    ensures r.Keys == s.Keys + {p.pr.number}
    ensures forall n | n in s :: r[n] == s[n]
    ensures !Has(s, p) ==> r[p.pr.number] == p.pr
    ensures forall q :: Has(r, q) <==> Has(s, q) || Eq(p, q)
  {
    if p.pr.number in s then s else s[p.pr.number := p.pr]
  }

  /** Inserting two equal wrappers into an empty set leaves one element: the first. */
  lemma InsertEqualTwice(p: PullRequest, q: PullRequest)
    requires Eq(p, q)
    ensures var s := Insert(Insert(map[], p), q); |s| == 1 && s[p.pr.number] == p.pr
  {
    var s := Insert(Insert(map[], p), q);
    assert s.Keys == {p.pr.number};
  }

  /** Insertion order does not change which numbers the set holds. */
  lemma InsertCommutesOnKeys(s: PrSet, p: PullRequest, q: PullRequest)
    requires ValidSet(s)
    ensures Insert(Insert(s, p), q).Keys == Insert(Insert(s, q), p).Keys
  {
  }

  /** Inserting under a number already present changes nothing. */
  lemma InsertIdempotent(s: PrSet, p: PullRequest)
    requires ValidSet(s)
    ensures Insert(Insert(s, p), p) == Insert(s, p)
  {
  }

  /**
   * `for pr in prs { set.insert(PullRequest(pr)) }`: inserts `prs` in order. The numbers added
   * are exactly those of `prs`; elements already in `s` stay, and a new number takes the first
   * element of `prs` that carries it.
   */
  method InsertAll(s: PrSet, prs: seq<GhPullRequest>) returns (r: PrSet)
    requires ValidSet(s)
    ensures ValidSet(r)
    ensures r.Keys == s.Keys + set pr | pr in prs :: pr.number
    ensures forall n | n in s :: r[n] == s[n]
    ensures forall n | n in r && n !in s :: FirstWithNumber(prs, n, r[n])
  {
    r := s;
    var i := 0;
    while i < |prs|
      invariant 0 <= i <= |prs|
      invariant ValidSet(r)
      invariant r.Keys == s.Keys + set pr | pr in prs[..i] :: pr.number
      invariant forall n | n in s :: r[n] == s[n]
      invariant forall n | n in r && n !in s :: FirstWithNumber(prs[..i], n, r[n])
    {
      ghost var before := r;
      r := Insert(r, PullRequest(prs[i]));
      assert prs[..i + 1] == prs[..i] + [prs[i]];
      forall n | n in r && n !in s ensures FirstWithNumber(prs[..i + 1], n, r[n]) {
        if n in before {
          FirstWithNumberExtend(prs[..i], prs[i], n, r[n]);
        } else {
          FirstWithNumberLast(prs[..i], prs[i]);
        }
      }
      i := i + 1;
    }
    assert prs[..i] == prs;
  }

  /** The numbers carried by a list of pull requests. */
  function Numbers(prs: seq<GhPullRequest>): (ns: set<nat>)
    ensures forall pr | pr in prs :: pr.number in ns
  {
    set pr | pr in prs :: pr.number
  }

  /**
   * `s` is what inserting `prs` in order into an empty set builds: it holds exactly their
   * numbers, each stored as the first pull request of `prs` carrying it.
   */
  predicate Collects(s: PrSet, prs: seq<GhPullRequest>)
  {
    ValidSet(s) && s.Keys == Numbers(prs) && forall n | n in s :: FirstWithNumber(prs, n, s[n])
  }

  /** One more insertion extends what the set collects by one pull request. */
  lemma InsertStep(s: PrSet, prs: seq<GhPullRequest>, y: GhPullRequest)
    requires Collects(s, prs)
    ensures Collects(Insert(s, PullRequest(y)), prs + [y])
  {
    var r := Insert(s, PullRequest(y));
    assert Numbers(prs + [y]) == Numbers(prs) + {y.number} by {
      assert forall pr :: pr in prs + [y] <==> pr in prs || pr == y;
    }
    forall n | n in r ensures FirstWithNumber(prs + [y], n, r[n]) {
      if n in s {
        FirstWithNumberExtend(prs, y, n, r[n]);
      } else {
        FirstWithNumberLast(prs, y);
      }
    }
  }

  /** `x` is the first element of `prs` numbered `n`. */
  predicate FirstWithNumber(prs: seq<GhPullRequest>, n: nat, x: GhPullRequest)
  {
    exists i :: 0 <= i < |prs| && prs[i] == x && x.number == n &&
      forall j :: 0 <= j < i ==> prs[j].number != n
  }

  lemma FirstWithNumberExtend(prs: seq<GhPullRequest>, y: GhPullRequest, n: nat, x: GhPullRequest)
    requires FirstWithNumber(prs, n, x)
    ensures FirstWithNumber(prs + [y], n, x)
  {
    var i :| 0 <= i < |prs| && prs[i] == x && x.number == n &&
      forall j :: 0 <= j < i ==> prs[j].number != n;
    assert (prs + [y])[i] == x;
  }

  lemma FirstWithNumberLast(prs: seq<GhPullRequest>, y: GhPullRequest)
    requires forall pr | pr in prs :: pr.number != y.number
    ensures FirstWithNumber(prs + [y], y.number, y)
  {
    assert (prs + [y])[|prs|] == y;
  }
}
