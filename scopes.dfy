/**
 * The query scopes of the News model as filters over an in-memory sequence
 * of rows. A scope is one WHERE condition; chaining scopes on a query adds
 * their conditions with AND, so the rows a chain returns are the rows of the
 * input, in input order, that satisfy every condition of the chain.
 */
module Scopes {
  import opened News
  import Membership

  /**
   * The four scopes: `published`, `featured`, `byCategory($c)` and
   * `forMembership($level)`. The level of `forMembership` defaults to
   * `'none'`, so `forMembership()` with no argument is `ForMembership("none")`.
   */
  datatype Scope =
    | Published
    | Featured
    | ByCategory(category: string)
    | ForMembership(level: string)

  /** The condition a scope adds to the query. */
  predicate Holds(q: Scope, n: NewsItem)
  {
    match q
    case Published => n.status == "published"
    case Featured => n.isFeatured
    case ByCategory(c) => n.category == c
    case ForMembership(level) => Membership.Allows(level, n.membershipRequirement)
  }

  /** The conjunction of the conditions of several scopes. */
  predicate HoldsAll(qs: seq<Scope>, n: NewsItem)
  {
    forall q :: q in qs ==> Holds(q, n)
  }

  /** `a` is `b` with some elements removed and the rest left in order. */
  predicate IsSubsequence<T(==)>(a: seq<T>, b: seq<T>)
    decreases |b|
  {
    if a == [] then true
    else if b == [] then false
    else (a[0] == b[0] && IsSubsequence(a[1..], b[1..])) || IsSubsequence(a, b[1..])
  }

  /**
   * One query whose WHERE clause is the conjunction of the scopes `qs`: the
   * rows that satisfy every condition, as many times as the input holds
   * them, in input order.
   */
  function Where(items: seq<NewsItem>, qs: seq<Scope>): (r: seq<NewsItem>)
    ensures IsSubsequence(r, items)
    ensures forall x :: x in r <==> x in items && HoldsAll(qs, x)
    ensures forall x :: multiset(r)[x] == if HoldsAll(qs, x) then multiset(items)[x] else 0
    ensures r == items <==> forall x :: x in items ==> HoldsAll(qs, x)
  {
    if items == [] then []
    else
      var rest := Where(items[1..], qs);
      assert items == [items[0]] + items[1..];
      if HoldsAll(qs, items[0]) then [items[0]] + rest
      else
        assert |rest| <= |items[1..]| by { SubsequenceNoLonger(rest, items[1..]); }
        rest
  }

  lemma {:induction false} SubsequenceNoLonger<T>(a: seq<T>, b: seq<T>)
    requires IsSubsequence(a, b)
    ensures |a| <= |b|
    decreases |b|
  {
    if a != [] {
      if a[0] == b[0] && IsSubsequence(a[1..], b[1..]) {
        SubsequenceNoLonger(a[1..], b[1..]);
      } else {
        SubsequenceNoLonger(a, b[1..]);
      }
    }
  }

  /** Scopes chained one after another on a query: `News::published()->featured()->...`. */
  function Chain(items: seq<NewsItem>, qs: seq<Scope>): seq<NewsItem>
    decreases |qs|
  {
    if qs == [] then items else Chain(Where(items, [qs[0]]), qs[1..])
  }

  /** Filtering by `qs` and then by `ps` is filtering once by both. */
  lemma {:induction false} WhereWhere(items: seq<NewsItem>, qs: seq<Scope>, ps: seq<Scope>)
    ensures Where(Where(items, qs), ps) == Where(items, qs + ps)
  {
    if items != [] {
      WhereWhere(items[1..], qs, ps);
      assert HoldsAll(qs + ps, items[0]) <==> HoldsAll(qs, items[0]) && HoldsAll(ps, items[0]);
      if HoldsAll(qs, items[0]) {
        assert ([items[0]] + Where(items[1..], qs))[1..] == Where(items[1..], qs);
      }
    }
  }

  /** The rows of a chain of scopes are those that satisfy every scope of the chain. */
  lemma {:induction false} ChainIsConjunction(items: seq<NewsItem>, qs: seq<Scope>)
    ensures Chain(items, qs) == Where(items, qs)
    decreases |qs|
  {
    if qs == [] {
      assert forall x :: x in items ==> HoldsAll(qs, x);
    } else {
      var w := Where(items, [qs[0]]);
      assert Chain(items, qs) == Chain(w, qs[1..]);
      ChainIsConjunction(w, qs[1..]);
      WhereWhere(items, [qs[0]], qs[1..]);
      assert [qs[0]] + qs[1..] == qs;
    }
  }

  /** Two lists of the same scopes select the same rows, whatever their order or repetitions. */
  lemma {:induction false} WhereDependsOnScopeSet(items: seq<NewsItem>, qs: seq<Scope>, ps: seq<Scope>)
    requires forall q :: q in qs <==> q in ps
    ensures Where(items, qs) == Where(items, ps)
  {
    if items != [] {
      WhereDependsOnScopeSet(items[1..], qs, ps);
      assert HoldsAll(qs, items[0]) == HoldsAll(ps, items[0]);
    }
  }

  /** Chaining two scopes in either order gives the same rows. */
  lemma ChainCommutes(items: seq<NewsItem>, a: Scope, b: Scope)
    ensures Chain(items, [a, b]) == Chain(items, [b, a])
  {
    ChainIsConjunction(items, [a, b]);
    ChainIsConjunction(items, [b, a]);
    WhereDependsOnScopeSet(items, [a, b], [b, a]);
  }

  /** Applying a scope twice gives the same rows as applying it once. */
  lemma ChainIdempotent(items: seq<NewsItem>, a: Scope)
    ensures Chain(items, [a, a]) == Chain(items, [a])
  {
    ChainIsConjunction(items, [a, a]);
    ChainIsConjunction(items, [a]);
    WhereDependsOnScopeSet(items, [a, a], [a]);
  }

  /** A chain keeps the surviving rows in their input order, each as often as the input has it. */
  lemma ChainKeepsExactly(items: seq<NewsItem>, qs: seq<Scope>, x: NewsItem)
    ensures IsSubsequence(Chain(items, qs), items)
    ensures multiset(Chain(items, qs))[x] == if HoldsAll(qs, x) then multiset(items)[x] else 0
  {
    ChainIsConjunction(items, qs);
  }

  lemma HoldsAllSingle(q: Scope, x: NewsItem)
    ensures HoldsAll([q], x) == Holds(q, x)
  {
    assert q in [q];
  }

  /** `published` keeps exactly the rows whose status is `"published"`. */
  lemma PublishedKeepsExactly(items: seq<NewsItem>, x: NewsItem)
    ensures multiset(Chain(items, [Published]))[x]
         == if x.status == "published" then multiset(items)[x] else 0
  {
    ChainKeepsExactly(items, [Published], x);
    HoldsAllSingle(Published, x);
  }

  /** `featured` keeps exactly the rows flagged as featured. */
  lemma FeaturedKeepsExactly(items: seq<NewsItem>, x: NewsItem)
    ensures multiset(Chain(items, [Featured]))[x]
         == if x.isFeatured then multiset(items)[x] else 0
  {
    ChainKeepsExactly(items, [Featured], x);
    HoldsAllSingle(Featured, x);
  }

  /** `byCategory(c)` keeps exactly the rows whose category is `c`. */
  lemma ByCategoryKeepsExactly(items: seq<NewsItem>, c: string, x: NewsItem)
    ensures multiset(Chain(items, [ByCategory(c)]))[x]
         == if x.category == c then multiset(items)[x] else 0
  {
    ChainKeepsExactly(items, [ByCategory(c)], x);
    HoldsAllSingle(ByCategory(c), x);
  }

  /** `forMembership('none')` keeps exactly the rows whose requirement is `"none"`. */
  lemma ForNoneKeepsExactly(items: seq<NewsItem>, x: NewsItem)
    ensures multiset(Chain(items, [ForMembership("none")]))[x]
         == if x.membershipRequirement == "none" then multiset(items)[x] else 0
  {
    ChainKeepsExactly(items, [ForMembership("none")], x);
    HoldsAllSingle(ForMembership("none"), x);
  }

  /**
   * `forMembership(premium)` keeps exactly the rows whose requirement is one of
   * the four tier names: rows with any other requirement are dropped.
   */
  lemma ForPremiumKeepsTiered(items: seq<NewsItem>, x: NewsItem)
    ensures multiset(Chain(items, [ForMembership("premium")]))[x]
         == if x.membershipRequirement in Membership.Levels then multiset(items)[x] else 0
  {
    ChainKeepsExactly(items, [ForMembership("premium")], x);
    HoldsAllSingle(ForMembership("premium"), x);
    Membership.PremiumKeepsEveryTier(x.membershipRequirement);
  }

  /** A requested level that is not a tier name returns the rows unchanged. */
  lemma ForUnknownLevelKeepsAll(items: seq<NewsItem>, level: string)
    requires level !in Membership.Levels
    ensures Chain(items, [ForMembership(level)]) == items
  {
    forall x | x in items ensures HoldsAll([ForMembership(level)], x) {
      Membership.UnknownLevelAllowsAll(level, x.membershipRequirement);
    }
  }

  /** If every row selected by `ps` is selected by `qs`, the `ps` rows are a subsequence of the `qs` rows. */
  lemma {:induction false} StrongerWhereIsSubsequence(items: seq<NewsItem>, ps: seq<Scope>, qs: seq<Scope>)
    requires forall x :: HoldsAll(ps, x) ==> HoldsAll(qs, x)
    ensures IsSubsequence(Where(items, ps), Where(items, qs))
  {
    if items != [] {
      StrongerWhereIsSubsequence(items[1..], ps, qs);
      var wp, wq := Where(items[1..], ps), Where(items[1..], qs);
      if HoldsAll(ps, items[0]) {
        assert ([items[0]] + wp)[1..] == wp;
        assert ([items[0]] + wq)[1..] == wq;
      } else if HoldsAll(qs, items[0]) {
        assert Where(items, qs) == [items[0]] + wq;
        SubsequenceOfCons(wp, wq, items[0]);
      }
    }
  }

  lemma SubsequenceOfCons<T>(a: seq<T>, b: seq<T>, x: T)
    requires IsSubsequence(a, b)
    ensures IsSubsequence(a, [x] + b)
  {
    assert ([x] + b)[1..] == b;
  }

  /**
   * Visibility is monotone in the tier: the rows a lower tier sees are, in
   * the same order, among the rows a higher tier sees.
   */
  lemma ForMembershipMonotone(items: seq<NewsItem>, a: Membership.Tier, b: Membership.Tier)
    requires Membership.Rank(a) <= Membership.Rank(b)
    ensures IsSubsequence(Chain(items, [ForMembership(Membership.Name(a))]),
                          Chain(items, [ForMembership(Membership.Name(b))]))
  {
    var pa, pb := [ForMembership(Membership.Name(a))], [ForMembership(Membership.Name(b))];
    forall x | HoldsAll(pa, x) ensures HoldsAll(pb, x) {
      Membership.AllowsMonotone(a, b, x.membershipRequirement);
      assert Holds(pa[0], x);
    }
    StrongerWhereIsSubsequence(items, pa, pb);
    ChainIsConjunction(items, pa);
    ChainIsConjunction(items, pb);
  }

  /**
   * A worked case: a published row for everyone, a published premium row and
   * a basic draft, asked for as `published` and then `forMembership('basic')`,
   * yield the first row only.
   */
  lemma PublishedBasicExample(a: NewsItem, b: NewsItem, c: NewsItem)
    requires a.membershipRequirement == "none" && a.status == "published"
    requires b.membershipRequirement == "premium" && b.status == "published"
    requires c.membershipRequirement == "basic" && c.status == "draft"
    ensures Chain([a, b, c], [Published, ForMembership("basic")]) == [a]
  {
    var qs := [Published, ForMembership("basic")];
    Membership.KnownLevelKeepsPrefix(1, "none");
    Membership.KnownLevelKeepsPrefix(1, "premium");
    assert HoldsAll(qs, a) by { assert Holds(qs[0], a) && Holds(qs[1], a); }
    assert !HoldsAll(qs, b) by { assert !Holds(qs[1], b); }
    assert !HoldsAll(qs, c) by { assert !Holds(qs[0], c); }
    assert Where([c], qs) == [] by { assert [c][1..] == []; }
    assert Where([b, c], qs) == [] by { assert [b, c][1..] == [c]; }
    assert Where([a, b, c], qs) == [a] by { assert [a, b, c][1..] == [b, c]; }
    ChainIsConjunction([a, b, c], qs);
  }
}
