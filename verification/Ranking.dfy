/** Counting the queried domains and listing the most popular ones (internal/stats/stats.go). */
module Ranking {
  import opened Common
  import opened Sorting
  import opened Text

  datatype DomainCount = DomainCount(name: string, count: nat)

  type Counts = map<string, nat>

  /** The lower case of a character: Go's `unicode.ToLower`, whatever its tables say. */
  type Lowering = char -> char

  function ToLower(lower: Lowering, s: string): (r: string)
    ensures |r| == |s| && forall i | 0 <= i < |s| :: r[i] == lower(s[i])
  {
    if s == "" then "" else [lower(s[0])] + ToLower(lower, s[1..])
  }

  /** The name a query is counted under, if any: without white space around it, in lower case and without the
      final dot, except for the root. */
  function CountedAs(lower: Lowering, query: string): Option<string> {
    var name := ToLower(lower, TrimSpace(query));
    if name == "" then None
    else
      var bare := if name[|name| - 1] == '.' then name[..|name| - 1] else name;
      Some(if bare == "" then "." else bare)
  }

  /** How many of the first `n` queries are counted under the name. */
  function Queries(lower: Lowering, qs: seq<string>, n: nat, name: string): nat
    requires n <= |qs|
  {
    if n == 0 then 0 else Queries(lower, qs, n - 1, name) + if CountedAs(lower, qs[n - 1]) == Some(name) then 1 else 0
  }

  /** How many of the first `n` queries are not blank. */
  function NotBlank(qs: seq<string>, n: nat): nat
    requires n <= |qs|
  {
    if n == 0 then 0 else NotBlank(qs, n - 1) + if IsBlank(qs[n - 1]) then 0 else 1
  }

  function Recorded(lower: Lowering, m: Counts, query: string): Counts {
    match CountedAs(lower, query)
    case None => m
    case Some(name) => m[name := (if name in m then m[name] else 0) + 1]
  }

  function RecordAll(lower: Lowering, qs: seq<string>, n: nat): Counts
    requires n <= |qs|
  {
    if n == 0 then map[] else Recorded(lower, RecordAll(lower, qs, n - 1), qs[n - 1])
  }

  /** A blank query is the only kind that is not counted. */
  lemma CountedUnlessBlank(lower: Lowering, query: string)
    ensures CountedAs(lower, query).Some? <==> !IsBlank(query)
  {
    TrimKeeps(query, 'a');
  }

  /** Each name's count is the number of queries for it, and only names with queries have one. */
  lemma {:induction false} CountsAreQueries(lower: Lowering, qs: seq<string>, n: nat, name: string)
    requires n <= |qs|
    ensures name in RecordAll(lower, qs, n) <==> Queries(lower, qs, n, name) > 0
    ensures name in RecordAll(lower, qs, n) ==> RecordAll(lower, qs, n)[name] == Queries(lower, qs, n, name)
  {
    hide CountedAs;
    if n > 0 {
      CountsAreQueries(lower, qs, n - 1, name);
    }
  }

  /** What a query is counted under: white space around it is ignored, every character is lowered, and one dot at the
      end goes, unless it is all there is. */
  lemma CountedName(lower: Lowering, a: string, query: string, b: string)
    requires IsBlank(a) && IsBlank(b) && Trimmed(query) && query != ""
    ensures var name := seq(|query|, i requires 0 <= i < |query| => lower(query[i]));
            CountedAs(lower, a + query + b) ==
            if name == "." then Some(".")
            else if name[|query| - 1] == '.' then Some(name[..|query| - 1])
            else Some(name)
  {
    hide TrimSpace, IsSpace, Trimmed, IsBlank, ToLower;
    TrimAround(a, query, b);
    LowerIs(lower, query);
  }

  lemma LowerIs(lower: Lowering, s: string)
    ensures ToLower(lower, s) == seq(|s|, i requires 0 <= i < |s| => lower(s[i]))
  {
    hide ToLower;
  }

  // ---------- listing a map ----------

  /** `all` has one entry for every name in the map, in some order. */
  ghost predicate Lists(m: Counts, all: seq<DomainCount>) {
    && (forall i | 0 <= i < |all| :: all[i].name in m && all[i].count == m[all[i].name])
    && (forall i, j | 0 <= i < j < |all| :: all[i].name != all[j].name)
    && (forall name | name in m :: Listed(all, name))
  }

  ghost predicate Listed(all: seq<DomainCount>, name: string) {
    exists i | 0 <= i < |all| :: all[i].name == name
  }

  function Total(all: seq<DomainCount>, k: nat): nat
    requires k <= |all|
  {
    if k == 0 then 0 else Total(all, k - 1) + all[k - 1].count
  }

  /** The counts add up to the number of queries that were not blank, in whatever order they are added. */
  lemma {:induction false} CountsAddUp(lower: Lowering, qs: seq<string>, all: seq<DomainCount>)
    requires Lists(RecordAll(lower, qs, |qs|), all)
    ensures Total(all, |all|) == NotBlank(qs, |qs|)
  {
    forall i | 0 <= i < |all| ensures all[i].count == Queries(lower, qs, |qs|, all[i].name) {
      CountsAreQueries(lower, qs, |qs|, all[i].name);
    }
    forall k | 0 <= k < |qs| && CountedAs(lower, qs[k]).Some? ensures Listed(all, CountedAs(lower, qs[k]).value) {
      QueriesGrow(lower, qs, k, |qs|);
      CountsAreQueries(lower, qs, |qs|, CountedAs(lower, qs[k]).value);
    }
    TotalIsQueries(lower, qs, |qs|, all, |all|);
    QueriesAddUp(lower, qs, |qs|, all);
  }

  lemma {:induction false} QueriesGrow(lower: Lowering, qs: seq<string>, k: nat, n: nat)
    requires k < n <= |qs| && CountedAs(lower, qs[k]).Some?
    ensures Queries(lower, qs, n, CountedAs(lower, qs[k]).value) > 0
  {
    hide CountedAs;
    if k < n - 1 {
      QueriesGrow(lower, qs, k, n - 1);
    }
  }

  /** The queries among the first `n` for the first `k` names of the list. */
  function QueriesFor(lower: Lowering, qs: seq<string>, n: nat, all: seq<DomainCount>, k: nat): nat
    requires n <= |qs| && k <= |all|
  {
    if k == 0 then 0 else QueriesFor(lower, qs, n, all, k - 1) + Queries(lower, qs, n, all[k - 1].name)
  }

  lemma {:induction false} TotalIsQueries(lower: Lowering, qs: seq<string>, n: nat, all: seq<DomainCount>, k: nat)
    requires n <= |qs| && k <= |all|
    requires forall i | 0 <= i < k :: all[i].count == Queries(lower, qs, n, all[i].name)
    ensures Total(all, k) == QueriesFor(lower, qs, n, all, k)
  {
    hide Queries;
    if k > 0 {
      TotalIsQueries(lower, qs, n, all, k - 1);
    }
  }

  lemma {:induction false} QueriesAddUp(lower: Lowering, qs: seq<string>, n: nat, all: seq<DomainCount>)
    requires n <= |qs|
    requires forall i, j | 0 <= i < j < |all| :: all[i].name != all[j].name
    requires forall k | 0 <= k < n && CountedAs(lower, qs[k]).Some? :: Listed(all, CountedAs(lower, qs[k]).value)
    ensures QueriesFor(lower, qs, n, all, |all|) == NotBlank(qs, n)
  {
    hide CountedAs;
    if n == 0 {
      NoQueries(lower, qs, all, |all|);
    } else {
      QueriesAddUp(lower, qs, n - 1, all);
      CountedUnlessBlank(lower, qs[n - 1]);
      OneMoreQuery(lower, qs, n, all, |all|);
    }
  }

  lemma {:induction false} NoQueries(lower: Lowering, qs: seq<string>, all: seq<DomainCount>, k: nat)
    requires k <= |all|
    ensures QueriesFor(lower, qs, 0, all, k) == 0
  {
    if k > 0 {
      NoQueries(lower, qs, all, k - 1);
    }
  }

  /** A query adds one for the one name it is counted under. */
  lemma {:induction false} OneMoreQuery(lower: Lowering, qs: seq<string>, n: nat, all: seq<DomainCount>, k: nat)
    requires 0 < n <= |qs| && k <= |all|
    requires forall i, j | 0 <= i < j < |all| :: all[i].name != all[j].name
    ensures QueriesFor(lower, qs, n, all, k) == QueriesFor(lower, qs, n - 1, all, k)
            + if exists i | 0 <= i < k :: CountedAs(lower, qs[n - 1]) == Some(all[i].name) then 1 else 0
  {
    hide CountedAs;
    if k > 0 {
      OneMoreQuery(lower, qs, n, all, k - 1);
    }
  }

  // ---------- the ranking ----------

  /** Go's order of strings: byte by byte, a prefix first. */
  predicate StrLess(a: string, b: string) {
    b != "" && (a == "" || a[0] < b[0] || (a[0] == b[0] && StrLess(a[1..], b[1..])))
  }

  lemma {:induction false} StrLessTotal(a: string, b: string)
    ensures StrLess(a, b) ==> !StrLess(b, a)
    ensures a != b ==> StrLess(a, b) || StrLess(b, a)
    ensures !StrLess(a, a)
  {
    if a != "" {
      StrLessTotal(a[1..], a[1..]);
      if b != "" {
        StrLessTotal(a[1..], b[1..]);
        assert a == [a[0]] + a[1..] && b == [b[0]] + b[1..];
      }
    }
  }

  lemma {:induction false} StrLessTransitive(a: string, b: string, c: string)
    requires StrLess(a, b) && StrLess(b, c)
    ensures StrLess(a, c)
  {
    if a != "" && a[0] == b[0] == c[0] {
      StrLessTransitive(a[1..], b[1..], c[1..]);
    }
  }

  /** The names agree up to some place where the first one ends or has the smaller character. */
  ghost predicate Earlier(a: string, b: string) {
    exists k :: EarlierAt(a, b, k)
  }

  predicate EarlierAt(a: string, b: string, k: nat) {
    k <= |a| && k < |b| && a[..k] == b[..k] && (k == |a| || a[k] < b[k])
  }

  lemma {:induction false} StrLessIff(a: string, b: string)
    ensures StrLess(a, b) <==> Earlier(a, b)
  {
    if a == "" || b == "" || a[0] != b[0] {
      assert EarlierAt(a, b, 0) <==> StrLess(a, b);
      assert forall k: nat | k > 0 && EarlierAt(a, b, k) :: a[..k][0] == b[..k][0];
    } else {
      StrLessIff(a[1..], b[1..]);
      if k: nat :| EarlierAt(a[1..], b[1..], k) {
        assert a[..k + 1] == [a[0]] + a[1..][..k] && b[..k + 1] == [b[0]] + b[1..][..k];
        assert EarlierAt(a, b, k + 1);
      }
      if k: nat :| EarlierAt(a, b, k) {
        assert k > 0 && a[1..][..k - 1] == a[..k][1..] && b[1..][..k - 1] == b[..k][1..];
        assert EarlierAt(a[1..], b[1..], k - 1);
      }
    }
  }

  /** More popular first, and by name among the equally popular. */
  predicate Before(a: DomainCount, b: DomainCount) {
    if a.count != b.count then a.count > b.count else StrLess(a.name, b.name)
  }

  lemma BeforeTotal(a: DomainCount, b: DomainCount)
    ensures Before(a, b) ==> !Before(b, a)
    ensures a != b ==> Before(a, b) || Before(b, a)
  {
    StrLessTotal(a.name, b.name);
  }

  lemma BeforeTransitive(a: DomainCount, b: DomainCount, c: DomainCount)
    requires Before(a, b) && Before(b, c)
    ensures Before(a, c)
  {
    if a.count == b.count == c.count {
      StrLessTransitive(a.name, b.name, c.name);
    }
  }

  /** `top` is what the map says the `limit` most popular domains are: that many entries if there are so many, in
      strict order, each with the name's count, and every name left out ranks after all of them. */
  ghost predicate IsTop(m: Counts, limit: nat, top: seq<DomainCount>) {
    && |top| == (if |m| < limit then |m| else limit)
    && (forall i | 0 <= i < |top| :: top[i].name in m && top[i].count == m[top[i].name])
    && (forall i, j | 0 <= i < j < |top| :: Before(top[i], top[j]))
    && (forall name, i | name in m && !Listed(top, name) && 0 <= i < |top| ::
          Before(top[i], DomainCount(name, m[name])))
  }

  /** The ranking is determined by the counts alone, and a longer one begins with a shorter one. */
  lemma RankingUnique(m: Counts, j: nat, k: nat, top: seq<DomainCount>, longer: seq<DomainCount>)
    requires IsTop(m, j, top) && IsTop(m, k, longer) && j <= k
    ensures top == longer[..|top|]
  {
    forall i | 0 <= i < |top| ensures top[i] == longer[i] {
      SameRank(m, j, k, top, longer, i);
    }
  }

  lemma {:induction false} SameRank(m: Counts, j: nat, k: nat, top: seq<DomainCount>, longer: seq<DomainCount>, i: nat)
    requires IsTop(m, j, top) && IsTop(m, k, longer)
    requires i < |top| && i < |longer|
    ensures top[i] == longer[i]
  {
    forall h | 0 <= h < i ensures top[h] == longer[h] {
      SameRank(m, j, k, top, longer, h);
    }
    if top[i] != longer[i] {
      NotAhead(m, j, k, top, longer, i);
      NotAhead(m, k, j, longer, top, i);
      BeforeTotal(top[i], longer[i]);
    }
  }

  /** Where two rankings first differ, the second has the better entry; so by symmetry they cannot differ. */
  lemma NotAhead(m: Counts, j: nat, k: nat, a: seq<DomainCount>, b: seq<DomainCount>, i: nat)
    requires IsTop(m, j, a) && IsTop(m, k, b)
    requires i < |a| && i < |b| && a[..i] == b[..i] && a[i] != b[i]
    ensures Before(b[i], a[i])
  {
    if Listed(b, a[i].name) {
      var h :| 0 <= h < |b| && b[h].name == a[i].name;
      assert b[h] == a[i];
      if h < i {
        assert a[..i][h] == b[..i][h];
        assert Before(a[h], a[i]);
        BeforeTotal(a[h], a[i]);
      }
    }
  }

  class DomainStats {
    const lower: Lowering
    var counts: Counts

    constructor (lower: Lowering)
      ensures this.lower == lower && counts == map[]
    {
      this.lower, counts := lower, map[];
    }

    method RecordDomainQuery(query: string)
      modifies this
      ensures counts == Recorded(lower, old(counts), query)
    {
      var name := ToLower(lower, TrimSpace(query));
      if name == "" {
        return;
      }
      if name[|name| - 1] == '.' {
        name := name[..|name| - 1];
      }
      if name == "" {
        name := ".";
      }
      counts := counts[name := (if name in counts then counts[name] else 0) + 1];
    }

    /** An entry for every name, in whatever order the map gives. */
    method All() returns (all: seq<DomainCount>)
      ensures Lists(counts, all) && |all| == |counts|
    {
      all := [];
      var left := counts.Keys;
      while left != {}
        invariant left <= counts.Keys
        invariant |all| + |left| == |counts|
        invariant forall i | 0 <= i < |all| :: all[i].name in counts && all[i].count == counts[all[i].name]
        invariant forall i | 0 <= i < |all| :: all[i].name !in left
        invariant forall i, j | 0 <= i < j < |all| :: all[i].name != all[j].name
        invariant forall name | name in counts && name !in left :: Listed(all, name)
        decreases left
      {
        var name :| name in left;
        ListedAppend(all, DomainCount(name, counts[name]));
        left := left - {name};
        all := all + [DomainCount(name, counts[name])];
      }
    }

    method TopDomains(limit: int) returns (top: seq<DomainCount>)
      ensures IsTop(counts, if limit <= 0 then 0 else limit, top)
      ensures |top| == if limit <= 0 then 0 else if |counts| <= limit then |counts| else limit
      ensures forall i | 0 <= i < |top| :: top[i].name in counts && top[i].count == counts[top[i].name]
      ensures forall i, j | 0 <= i < j < |top| ::
                top[i].count > top[j].count
                || (top[i].count == top[j].count && Earlier(top[i].name, top[j].name))
      ensures forall name, i | name in counts && 0 <= i < |top| && (forall j | 0 <= j < |top| :: top[j].name != name) ::
                top[i].count > counts[name]
                || (top[i].count == counts[name] && Earlier(top[i].name, name))
    {
      if limit <= 0 {
        return [];
      }
      var all := All();
      hide Lists, Before, StrictWeakOrder, SortedBy;
      BeforeIsOrder(all);
      top := Sort(all, Before);
      SortedLists(counts, all, top);
      TopOfSorted(counts, top, limit);
      if |top| > limit {
        top := top[..limit];
      }
      TopIsMost(counts, limit, top);
    }
  }

  /** The most popular domains in plain terms: by count, the highest first, and then by name. */
  lemma TopIsMost(m: Counts, limit: nat, top: seq<DomainCount>)
    requires IsTop(m, limit, top)
    ensures forall i, j | 0 <= i < j < |top| ::
              top[i].count > top[j].count || (top[i].count == top[j].count && Earlier(top[i].name, top[j].name))
    ensures forall name, i | name in m && 0 <= i < |top| && (forall j | 0 <= j < |top| :: top[j].name != name) ::
              top[i].count > m[name] || (top[i].count == m[name] && Earlier(top[i].name, name))
  {
    forall i, j | 0 <= i < j < |top|
      ensures top[i].count > top[j].count || (top[i].count == top[j].count && Earlier(top[i].name, top[j].name))
    {
      assert Before(top[i], top[j]);
      StrLessIff(top[i].name, top[j].name);
    }
    forall name, i | name in m && 0 <= i < |top| && (forall j | 0 <= j < |top| :: top[j].name != name)
      ensures top[i].count > m[name] || (top[i].count == m[name] && Earlier(top[i].name, name))
    {
      assert Before(top[i], DomainCount(name, m[name]));
      StrLessIff(top[i].name, name);
    }
  }

  lemma ListedAppend(all: seq<DomainCount>, e: DomainCount)
    ensures forall name :: Listed(all + [e], name) <==> Listed(all, name) || name == e.name
  {
    var all' := all + [e];
    assert all'[|all|] == e;
    forall name | Listed(all, name) ensures Listed(all', name) {
      var i :| 0 <= i < |all| && all[i].name == name;
      assert all'[i].name == name;
    }
  }

  lemma BeforeIsOrder(all: seq<DomainCount>)
    ensures StrictWeakOrder(Before, all)
  {
    forall a, b | Before(a, b) ensures !Before(b, a) {
      BeforeTotal(a, b);
    }
    forall a, b, c | !Before(b, a) && !Before(c, b) ensures !Before(c, a) {
      BeforeTotal(a, b);
      BeforeTotal(b, c);
      BeforeTotal(a, c);
      if Before(c, a) && a != b && b != c {
        BeforeTransitive(a, b, c);
      }
    }
  }

  /** Sorting a listing of the map gives a listing in strict order. */
  lemma SortedLists(m: Counts, all: seq<DomainCount>, sorted: seq<DomainCount>)
    requires Lists(m, all) && multiset(sorted) == multiset(all) && SortedBy(Before, sorted)
    ensures Lists(m, sorted) && |sorted| == |all|
    ensures forall i, j | 0 <= i < j < |sorted| :: Before(sorted[i], sorted[j])
  {
    assert |multiset(sorted)| == |multiset(all)|;
    forall i | 0 <= i < |sorted| ensures sorted[i] in all {
      assert sorted[i] in multiset(all);
    }
    forall name | name in m ensures Listed(sorted, name) {
      var i :| 0 <= i < |all| && all[i].name == name;
      assert all[i] in multiset(sorted);
      var k :| 0 <= k < |sorted| && sorted[k] == all[i];
    }
    forall i, j | 0 <= i < j < |sorted| ensures sorted[i].name != sorted[j].name {
      Distinct(all, sorted, i, j);
    }
    forall i, j | 0 <= i < j < |sorted| ensures Before(sorted[i], sorted[j]) {
      BeforeTotal(sorted[i], sorted[j]);
    }
  }

  lemma Distinct(all: seq<DomainCount>, sorted: seq<DomainCount>, i: nat, j: nat)
    requires forall i, j | 0 <= i < j < |all| :: all[i].name != all[j].name
    requires multiset(sorted) == multiset(all) && i < j < |sorted|
    ensures sorted[i].name != sorted[j].name
  {
    assert sorted[i] in multiset(all) && sorted[j] in multiset(all);
    if sorted[i].name == sorted[j].name {
      assert sorted[i] == sorted[j];
      TwiceIn(sorted, i, j);
      OnceIn(all, sorted[i]);
    }
  }

  lemma TwiceIn(s: seq<DomainCount>, i: nat, j: nat)
    requires i < j < |s| && s[i] == s[j]
    ensures multiset(s)[s[i]] >= 2
  {
    assert s == s[..j] + [s[j]] + s[j + 1..];
    assert s[i] in s[..j] by {
      assert s[..j][i] == s[i];
    }
    assert s[i] in multiset(s[..j]);
  }

  lemma {:induction false} OnceIn(s: seq<DomainCount>, e: DomainCount)
    requires forall i, j | 0 <= i < j < |s| :: s[i].name != s[j].name
    ensures multiset(s)[e] <= 1
  {
    if s != [] {
      var before := s[..|s| - 1];
      assert s == before + [s[|s| - 1]];
      OnceIn(before, e);
      if e in before {
        assert e != s[|s| - 1];
      } else {
        assert e !in multiset(before);
      }
    }
  }

  lemma TopOfSorted(m: Counts, sorted: seq<DomainCount>, limit: nat)
    requires Lists(m, sorted) && |sorted| == |m|
    requires forall i, j | 0 <= i < j < |sorted| :: Before(sorted[i], sorted[j])
    ensures IsTop(m, limit, if |sorted| > limit then sorted[..limit] else sorted)
  {
    hide Before;
    var top := if |sorted| > limit then sorted[..limit] else sorted;
    forall name, i | name in m && !Listed(top, name) && 0 <= i < |top|
      ensures Before(top[i], DomainCount(name, m[name]))
    {
      var k :| 0 <= k < |sorted| && sorted[k].name == name;
      assert sorted[k] == DomainCount(name, m[name]);
    }
  }
}
