/**
 * The membership visibility rule of the `forMembership` query scope.
 *
 * The scope is written against strings: a requested level is looked up in
 * the ordered list of tier names, and a row is kept when its stored
 * `membership_requirement` is one of the names up to and including the
 * requested one. `Allows` models these branches as written; `AllowsByRank`
 * is the same rule restated over an enumerated tier type with a numeric
 * rank, and `AllowsIsRankOrder` proves the two agree on every pair of
 * strings.
 */
module Membership {

  /** The membership tiers, lowest privilege first. */
  datatype Tier = None | Basic | Standard | Premium

  function Rank(t: Tier): nat
  {
    match t
    case None => 0
    case Basic => 1
    case Standard => 2
    case Premium => 3
  }

  /** The string under which a tier is stored and requested. */
  function Name(t: Tier): string
  {
    match t
    case None => "none"
    case Basic => "basic"
    case Standard => "standard"
    case Premium => "premium"
  }

  /** The tier list of the scope, in order of increasing privilege. */
  const Levels: seq<string> := ["none", "basic", "standard", "premium"]

  /** The tier list holds each tier's name at that tier's rank, and nothing else. */
  lemma LevelsAreRankedNames(t: Tier)
    ensures |Levels| == 4
    ensures Levels[Rank(t)] == Name(t)
    ensures forall i :: 0 <= i < |Levels| ==> (Levels[i] == Name(t) <==> i == Rank(t))
  {
  }

  /** What `array_search` returns: an index, or `false`. */
  datatype SearchResult = Found(index: nat) | NotFound

  /**
   * `array_search(key, xs)`: the first index at which `key` occurs in `xs`.
   * The loose comparison of `array_search` is string equality here, because
   * no name in the tier list is a numeric string.
   */
  function Search(key: string, xs: seq<string>): (r: SearchResult)
    ensures r.Found? ==> r.index < |xs| && xs[r.index] == key
    ensures r.Found? ==> forall j :: 0 <= j < r.index ==> xs[j] != key
    ensures r.NotFound? <==> key !in xs
  {
    if xs == [] then NotFound
    else if xs[0] == key then Found(0)
    else match Search(key, xs[1..])
      case Found(i) => Found(i + 1)
      case NotFound => NotFound
  }

  /**
   * Whether the scope `forMembership(level)` keeps a row whose
   * `membership_requirement` is `req`: the special case for `'none'`, the
   * prefix of the tier list for a listed level, and no constraint at all for
   * a level that is not in the list.
   */
  predicate Allows(level: string, req: string)
  {
    if level == "none" then req == "none"
    else match Search(level, Levels)
      case Found(i) => req in Levels[..i + 1]
      case NotFound => true
  }

  /** A string read as a tier: one of the four names, or anything else. */
  datatype Level = Known(tier: Tier) | Unknown(raw: string)

  function Classify(s: string): (l: Level)
    ensures l.Known? <==> s in Levels
    ensures l.Known? ==> Name(l.tier) == s
    ensures l.Unknown? ==> l.raw == s
  {
    if s == "none" then Known(None)
    else if s == "basic" then Known(Basic)
    else if s == "standard" then Known(Standard)
    else if s == "premium" then Known(Premium)
    else Unknown(s)
  }

  /**
   * The visibility rule over tiers: a known requested tier sees the rows
   * whose requirement is a tier of no higher rank; an unknown requested
   * level sees every row.
   */
  predicate AllowsByRank(level: Level, req: Level)
  {
    match level
    case Unknown(_) => true
    case Known(t) => req.Known? && Rank(req.tier) <= Rank(t)
  }

  /** Where a name sits in the tier list. */
  lemma SearchLevels(t: Tier)
    ensures Search(Name(t), Levels) == Found(Rank(t))
  {
    LevelsAreRankedNames(t);
    var r := Search(Name(t), Levels);
    assert r.Found?;
    assert Levels[r.index] == Name(t);
  }

  /** A requirement in the prefix of the tier list that ends at tier `t`. */
  lemma InPrefixIffRank(t: Tier, req: string)
    ensures req in Levels[..Rank(t) + 1]
        <==> Classify(req).Known? && Rank(Classify(req).tier) <= Rank(t)
  {
    if req in Levels[..Rank(t) + 1] {
      var i :| 0 <= i < Rank(t) + 1 && Levels[..Rank(t) + 1][i] == req;
      assert Levels[i] == req;
      var u := Classify(req).tier;
      LevelsAreRankedNames(u);
    }
    if Classify(req).Known? && Rank(Classify(req).tier) <= Rank(t) {
      var u := Classify(req).tier;
      LevelsAreRankedNames(u);
      assert Levels[..Rank(t) + 1][Rank(u)] == req;
    }
  }

  /** The string rule of the scope is the rank rule over tiers, for every pair of strings. */
  lemma AllowsIsRankOrder(level: string, req: string)
    ensures Allows(level, req) <==> AllowsByRank(Classify(level), Classify(req))
  {
    match Classify(level)
    case Unknown(_) =>
      assert Search(level, Levels).NotFound?;
    case Known(t) =>
      SearchLevels(t);
      InPrefixIffRank(t, req);
      if t == None {
        InPrefixIffRank(None, req);
        assert Levels[..1] == ["none"];
      }
  }

  /**
   * The special case for `'none'` gives the same rows as the general prefix
   * rule would at index 0, where the search finds `'none'`.
   */
  lemma NoneBranchIsPrefixRule(req: string)
    ensures Search("none", Levels) == Found(0)
    ensures Allows("none", req) <==> req in Levels[..1]
  {
    SearchLevels(None);
    assert Levels[..1] == ["none"];
  }

  /** A listed level at index i keeps exactly the requirements among the first i+1 tier names. */
  lemma KnownLevelKeepsPrefix(i: nat, req: string)
    requires i < |Levels|
    ensures Allows(Levels[i], req) <==> exists j :: 0 <= j <= i && Levels[j] == req
  {
    var t := Classify(Levels[i]).tier;
    LevelsAreRankedNames(t);
    assert Rank(t) == i;
    AllowsIsRankOrder(Levels[i], req);
    InPrefixIffRank(t, req);
    if req in Levels[..i + 1] {
      var j :| 0 <= j < i + 1 && Levels[..i + 1][j] == req;
      assert Levels[j] == req;
    }
    if exists j :: 0 <= j <= i && Levels[j] == req {
      var j :| 0 <= j <= i && Levels[j] == req;
      assert Levels[..i + 1][j] == req;
    }
  }

  /** A requested level of `'none'` keeps exactly the requirement `"none"`. */
  lemma NoneKeepsOnlyNone(req: string)
    ensures Allows("none", req) <==> req == "none"
  {
  }

  /** Visibility grows with the tier: what a lower tier sees, a higher tier sees too. */
  lemma AllowsMonotone(a: Tier, b: Tier, req: string)
    requires Rank(a) <= Rank(b)
    ensures Allows(Name(a), req) ==> Allows(Name(b), req)
  {
    AllowsIsRankOrder(Name(a), req);
    AllowsIsRankOrder(Name(b), req);
  }

  /** `'premium'` keeps exactly the requirements that are one of the four tier names. */
  lemma PremiumKeepsEveryTier(req: string)
    ensures Allows("premium", req) <==> req in Levels
  {
    AllowsIsRankOrder("premium", req);
    if req in Levels {
      LevelsAreRankedNames(Classify(req).tier);
    }
  }

  /** A requirement outside the tier list is hidden from every listed level. */
  lemma OffListNeverAllowed(t: Tier, req: string)
    requires req !in Levels
    ensures !Allows(Name(t), req)
  {
    AllowsIsRankOrder(Name(t), req);
  }

  /** A requested level outside the tier list adds no constraint: every requirement is kept. */
  lemma UnknownLevelAllowsAll(level: string, req: string)
    requires level !in Levels
    ensures Allows(level, req)
  {
    assert level != "none" by { assert Levels[0] == "none"; }
  }
}
