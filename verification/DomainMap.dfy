/** Overrides for DNS names: the most specific match, and the parser of the configuration
    (internal/dnsserver/domainmap.go). A canonical name is the sequence of its lower-case labels. */
module DomainMap {
  import opened Common
  import opened Text

  type Name = seq<string>

  /** The labels of a name in lower case; a trailing dot makes no difference, and the root has no labels. */
  function Canonical(s: string): Name {
    if s == "." then [] else
      var parts := Split(Lower(s), '.');
      if parts[|parts| - 1] == "" then parts[..|parts| - 1] else parts
  }

  /** Names that differ in case only are the same name. */
  lemma CaseIgnored(s: string, t: string)
    requires Lower(s) == Lower(t)
    ensures Canonical(s) == Canonical(t)
  {
    LowerIsLower(s);
    LowerIsLower(t);
    if s == "." || t == "." {
      assert |s| == |t| == 1 && LowerChar(s[0]) == LowerChar(t[0]);
      assert s == t;
    }
  }

  /** And so are a name and the same name with a dot at the end. */
  lemma DotIgnored(s: string)
    requires s != "" && s[|s| - 1] != '.'
    ensures Canonical(s + ".") == Canonical(s)
  {
    LowerConcat(s, ".");
    LowerIsLower(s);
    assert Lower(".") == ".";
    SplitEnd(Lower(s), '.');
    SplitLast(Lower(s), '.');
    var parts := Split(Lower(s), '.');
    assert (parts + [""])[..|parts|] == parts;
  }

  /** Canonical labels are in lower case and have no dots. */
  lemma CanonicalLabels(s: string)
    ensures forall i | 0 <= i < |Canonical(s)| :: IsLower(Canonical(s)[i]) && '.' !in Canonical(s)[i]
  {
    LowerIsLower(s);
    SplitPieces(Lower(s), '.');
  }

  /** The domain is at or above the name: its labels are the last ones of the name. */
  predicate IsSubDomain(parent: Name, child: Name) {
    |parent| <= |child| && child[|child| - |parent|..] == parent
  }

  // ---------- names as text ----------

  /** The name as text, without its final dot. */
  function Bare(s: string): string {
    if s != "" && s[|s| - 1] == '.' then s[..|s| - 1] else s
  }

  /** A name other than the root, with at most one dot at the end. */
  predicate IsProper(s: string) {
    Bare(s) != "" && Bare(s)[|Bare(s)| - 1] != '.'
  }

  /** One is the other, or the same letter in another case. */
  predicate SameLetter(c: char, d: char) {
    c == d || ('A' <= c <= 'Z' && d as int == c as int + 32) || ('A' <= d <= 'Z' && c as int == d as int + 32)
  }

  predicate SameText(s: string, t: string) {
    |s| == |t| && forall i | 0 <= i < |s| :: SameLetter(s[i], t[i])
  }

  /** The text of the first is that of the second, or what follows some dot in it, but for case. */
  predicate EndsText(parent: string, child: string) {
    var n := |child| - |parent|;
    0 <= n && SameText(child[n..], parent) && (n > 0 ==> child[n - 1] == '.')
  }

  lemma CanonicalBare(s: string)
    requires IsProper(s)
    ensures Canonical(s) == Split(Lower(Bare(s)), '.') != []
    ensures Join(Canonical(s), '.') == Lower(Bare(s))
  {
    var b := Bare(s);
    if b != s {
      assert s == b + ".";
      DotIgnored(b);
    }
    LowerIsLower(b);
    SplitLast(Lower(b), '.');
    JoinSplit(Lower(b), '.');
  }

  lemma SameLower(s: string, t: string)
    ensures Lower(s) == Lower(t) <==> SameText(s, t)
  {
    LowerIsLower(s);
    LowerIsLower(t);
    forall c: char, d: char ensures LowerChar(c) == LowerChar(d) <==> SameLetter(c, d) {
    }
    hide LowerChar, SameLetter;
    if SameText(s, t) {
      assert forall i | 0 <= i < |s| :: LowerChar(s[i]) == LowerChar(t[i]);
    }
    if Lower(s) == Lower(t) {
      forall i | 0 <= i < |s| ensures SameLetter(s[i], t[i]) {
        assert Lower(s)[i] == Lower(t)[i];
      }
    }
  }

  /** Two spellings are of one name exactly when they are the same text but for case and the final dot. */
  lemma SameNameIff(s: string, t: string)
    requires IsProper(s) && IsProper(t)
    ensures Canonical(s) == Canonical(t) <==> SameText(Bare(s), Bare(t))
  {
    CanonicalBare(s);
    CanonicalBare(t);
    SameLower(Bare(s), Bare(t));
  }

  /** The last labels of the name are those of `d`. */
  ghost predicate EndsIn(name: Name, d: Name) {
    exists p: Name :: name == p + d
  }

  lemma SubDomainIff(d: Name, name: Name)
    ensures IsSubDomain(d, name) <==> EndsIn(name, d)
  {
    if IsSubDomain(d, name) {
      assert name == name[..|name| - |d|] + d;
    }
  }

  lemma LowerSplit(s: string, n: nat)
    requires n <= |s|
    ensures Lower(s) == Lower(s[..n]) + Lower(s[n..])
  {
    hide Lower;
    LowerConcat(s[..n], s[n..]);
    assert s == s[..n] + s[n..];
  }

  lemma EndsIfText(a: string, b: string)
    requires EndsText(b, a)
    ensures EndsIn(Split(Lower(a), '.'), Split(Lower(b), '.'))
  {
    hide Split, Lower;
    var n := |a| - |b|;
    SameLower(a[n..], b);
    if n > 0 {
      LowerSplit(a, n);
      LowerSplit(a[..n], n - 1);
      assert a[..n][..n - 1] == a[..n - 1] && a[..n][n - 1..] == ".";
      LowerDot();
      SplitConcat(Lower(a[..n - 1]), Lower(b), '.');
    } else {
      assert a[n..] == a;
      assert Split(Lower(a), '.') == [] + Split(Lower(b), '.');
    }
  }

  lemma LowerDot()
    ensures Lower(".") == "."
  {
  }

  lemma TextIfEnds(a: string, b: string)
    requires EndsIn(Split(Lower(a), '.'), Split(Lower(b), '.'))
    ensures EndsText(b, a)
  {
    hide Split, Lower, SameText, Join;
    var p :| Split(Lower(a), '.') == p + Split(Lower(b), '.');
    JoinSplit(Lower(a), '.');
    JoinSplit(Lower(b), '.');
    LowerIsLower(a);
    LowerIsLower(b);
    var n := |a| - |b|;
    if p == [] {
      assert p + Split(Lower(b), '.') == Split(Lower(b), '.');
      SameLower(a, b);
      assert a[0..] == a;
    } else {
      JoinConcat(p, Split(Lower(b), '.'), '.');
      assert Lower(a) == Join(p, '.') + ['.'] + Lower(b);
      LowerEnds(a, b, Join(p, '.'));
    }
  }

  lemma SameRest<T>(p: seq<T>, q: seq<T>, p': seq<T>, q': seq<T>)
    requires p + q == p' + q' && |p| == |p'|
    ensures p == p' && q == q'
  {
    assert p == (p + q)[..|p|] && p' == (p' + q')[..|p'|];
    assert q == (p + q)[|p|..] && q' == (p' + q')[|p'|..];
  }

  lemma LowerLast(s: string, p: string)
    requires Lower(s) == p + ['.']
    ensures |s| == |p| + 1 && s[|p|] == '.'
  {
    LowerIsLower(s);
    hide Lower;
    assert LowerChar(s[|p|]) == Lower(s)[|p|] == '.';
  }

  lemma LowerLengths(a: string, b: string, p: string)
    requires Lower(a) == p + ['.'] + Lower(b)
    ensures |a| == |p| + 1 + |b|
  {
    hide Lower;
    LowerIsLower(a);
    LowerIsLower(b);
  }

  lemma LowerCut(a: string, n: nat, x: string, y: string)
    requires n <= |a| && Lower(a) == x + y && |x| == n
    ensures Lower(a[..n]) == x && Lower(a[n..]) == y
  {
    hide Lower;
    LowerSplit(a, n);
    LowerIsLower(a[..n]);
    SameRest(Lower(a[..n]), Lower(a[n..]), x, y);
  }

  lemma LowerEnds(a: string, b: string, p: string)
    requires Lower(a) == p + ['.'] + Lower(b)
    ensures |b| < |a| && SameText(a[|a| - |b|..], b) && a[|a| - |b| - 1] == '.'
  {
    hide *;
    LowerLengths(a, b, p);
    var n := |p| + 1;
    LowerCut(a, n, p + ['.'], Lower(b));
    SameLower(a[n..], b);
    LowerLast(a[..n], p);
  }

  /** A name is at or above another, label by label, exactly when it is as text. */
  lemma EndsIff(s: string, t: string)
    requires IsProper(s) && IsProper(t)
    ensures EndsIn(Canonical(s), Canonical(t)) <==> EndsText(Bare(t), Bare(s))
  {
    CanonicalBare(s);
    CanonicalBare(t);
    hide Canonical, Bare, Split, IsProper, EndsText, Lower, Join;
    if EndsText(Bare(t), Bare(s)) {
      EndsIfText(Bare(s), Bare(t));
    }
    if EndsIn(Canonical(s), Canonical(t)) {
      TextIfEnds(Bare(s), Bare(t));
    }
  }

  // ---------- looking a name up ----------

  type Entries = map<Name, string>

  datatype Setting = Setting(domain: string, value: string)

  /** The map after the settings, one after the other. */
  function AfterSets(sets: seq<Setting>): Entries {
    if sets == [] then map[] else
      var last := sets[|sets| - 1];
      AfterSets(sets[..|sets| - 1])[Canonical(last.domain) := last.value]
  }

  predicate SameName(s: string, t: string) {
    Canonical(s) == Canonical(t)
  }

  /** `r` is the value of the last setting for the domain, if there is one. */
  ghost predicate IsLastSet(sets: seq<Setting>, domain: string, r: Option<string>) {
    && (r.None? ==> forall i | 0 <= i < |sets| :: !SameName(sets[i].domain, domain))
    && (r.Some? ==> exists i | 0 <= i < |sets| ::
          && SameName(sets[i].domain, domain) && r.value == sets[i].value
          && forall j | i < j < |sets| :: !SameName(sets[j].domain, domain))
  }

  lemma {:induction false} LastSetKept(sets: seq<Setting>, domain: string)
    ensures var m, d := AfterSets(sets), Canonical(domain);
            IsLastSet(sets, domain, if d in m then Some(m[d]) else None)
  {
    hide Canonical, IsLastSet;
    if sets == [] {
      NeverSet(domain);
    } else {
      var n, d := |sets| - 1, Canonical(domain);
      var before := AfterSets(sets[..n]);
      LastSetKept(sets[..n], domain);
      assert sets[..n] + [sets[n]] == sets;
      LastSetNext(sets[..n], sets[n], domain, if d in before then Some(before[d]) else None);
    }
  }

  lemma NeverSet(domain: string)
    ensures IsLastSet([], domain, None)
  {
  }

  lemma LastSetNext(sets: seq<Setting>, s: Setting, domain: string, r: Option<string>)
    requires IsLastSet(sets, domain, r)
    ensures IsLastSet(sets + [s], domain, if SameName(s.domain, domain) then Some(s.value) else r)
  {
    hide SameName;
    var n, sets' := |sets|, sets + [s];
    assert sets'[n] == s && forall i | 0 <= i < n :: sets'[i] == sets[i];
    if !SameName(s.domain, domain) && r.Some? {
      var i :| 0 <= i < n && SameName(sets[i].domain, domain) && r.value == sets[i].value
        && forall j | i < j < n :: !SameName(sets[j].domain, domain);
      assert SameName(sets'[i].domain, domain) && r.value == sets'[i].value
        && forall j | i < j < n + 1 :: !SameName(sets'[j].domain, domain);
    }
  }

  /** `d` is an entry at or above the name, other than the root, and none of those has more labels. */
  predicate IsMostSpecific(m: Entries, name: Name, d: Name) {
    && d in m && d != [] && IsSubDomain(d, name)
    && forall e | e in m && IsSubDomain(e, name) :: |e| <= |d|
  }

  ghost predicate Matches(m: Entries, name: Name) {
    exists d | d in m :: d != [] && IsSubDomain(d, name)
  }

  /** There is at most one such entry, so the order in which a map is walked cannot matter. */
  lemma MostSpecificUnique(m: Entries, name: Name, d: Name, e: Name)
    requires IsMostSpecific(m, name, d) && IsMostSpecific(m, name, e)
    ensures d == e
  {
  }

  /** The result of a lookup is determined by the map and the name. */
  lemma LookupDetermined(m: Entries, name: Name, r: Option<string>, s: Option<string>)
    requires IsLookup(m, name, r) && IsLookup(m, name, s)
    ensures r == s
  {
    if r.Some? {
      var d :| IsMostSpecific(m, name, d) && r.value == m[d];
      var e :| IsMostSpecific(m, name, e) && s.value == m[e];
      MostSpecificUnique(m, name, d, e);
    }
  }

  ghost predicate IsLookup(m: Entries, name: Name, r: Option<string>) {
    && (r.Some? <==> Matches(m, name))
    && (r.Some? ==> exists d | d in m :: IsMostSpecific(m, name, d) && r.value == m[d])
  }

  /** An entry for the root is above every name and yet is never found, even when there is no other. */
  lemma RootNeverFound(name: Name, value: string, r: Option<string>)
    ensures IsSubDomain([], name)
    ensures IsLookup(map[[] := value], name, r) <==> r == None
  {
  }

  /** What a lookup finds, in terms of the labels that the name ends in. */
  lemma LookupEnds(m: Entries, name: Name, r: Option<string>)
    requires IsLookup(m, name, r)
    ensures r.Some? <==> exists d | d in m :: d != [] && EndsIn(name, d)
    ensures r.Some? ==> exists d | d in m ::
              d != [] && EndsIn(name, d) && r.value == m[d] && forall e | e in m && EndsIn(name, e) :: |e| <= |d|
  {
    forall d ensures IsSubDomain(d, name) <==> EndsIn(name, d) {
      SubDomainIff(d, name);
    }
  }

  ghost predicate AllProper(sets: seq<Setting>) {
    forall i | 0 <= i < |sets| :: IsProper(sets[i].domain)
  }

  /** The setting is for a name at or above the domain. */
  predicate Covers(sets: seq<Setting>, i: nat, domain: string)
    requires i < |sets|
  {
    EndsText(Bare(sets[i].domain), Bare(domain))
  }

  /** Setting `i` is for the longest such name, and the last one for it. */
  ghost predicate IsLongestAt(sets: seq<Setting>, domain: string, i: nat)
    requires i < |sets|
  {
    && Covers(sets, i, domain)
    && (forall j | 0 <= j < |sets| && Covers(sets, j, domain) :: |Bare(sets[j].domain)| <= |Bare(sets[i].domain)|)
    && (forall j | i < j < |sets| :: !SameText(Bare(sets[j].domain), Bare(sets[i].domain)))
  }

  /** `r` is what was last set for the longest name that the domain is, or that follows some dot in it; nothing if there
      is none. */
  ghost predicate IsLongest(sets: seq<Setting>, domain: string, r: Option<string>) {
    match r
    case None => forall i | 0 <= i < |sets| :: !Covers(sets, i, domain)
    case Some(v) => exists i | 0 <= i < |sets| :: IsLongestAt(sets, domain, i) && v == sets[i].value
  }

  /** The keys of the map are the names set, each with its last value. */
  lemma KeysAreSet(sets: seq<Setting>, d: Name) returns (i: nat)
    requires d in AfterSets(sets)
    ensures i < |sets| && Canonical(sets[i].domain) == d && AfterSets(sets)[d] == sets[i].value
    ensures forall j | i < j < |sets| :: Canonical(sets[j].domain) != d
  {
    hide Canonical;
    var n := |sets| - 1;
    if Canonical(sets[n].domain) == d {
      i := n;
    } else {
      i := KeysAreSet(sets[..n], d);
      assert forall j | 0 <= j < n :: sets[..n][j] == sets[j];
    }
  }

  lemma {:induction false} SetIsKey(sets: seq<Setting>, i: nat)
    requires i < |sets|
    ensures Canonical(sets[i].domain) in AfterSets(sets)
  {
    hide Canonical;
    if i < |sets| - 1 {
      SetIsKey(sets[..|sets| - 1], i);
    }
  }

  lemma CoversIff(sets: seq<Setting>, i: nat, domain: string)
    requires i < |sets| && AllProper(sets) && IsProper(domain)
    ensures Covers(sets, i, domain) <==> EndsIn(Canonical(domain), Canonical(sets[i].domain))
    ensures Canonical(sets[i].domain) != []
  {
    EndsIff(domain, sets[i].domain);
    CanonicalBare(sets[i].domain);
  }

  /** Of two names that one ends in, the one with fewer labels is the shorter one. */
  lemma FewerLabels(sets: seq<Setting>, i: nat, j: nat, domain: string)
    requires i < |sets| && j < |sets| && AllProper(sets) && IsProper(domain)
    requires Covers(sets, i, domain) && Covers(sets, j, domain)
    requires |Canonical(sets[j].domain)| <= |Canonical(sets[i].domain)|
    ensures |Bare(sets[j].domain)| <= |Bare(sets[i].domain)|
  {
    hide Canonical, Covers, Bare, IsProper;
    CoversIff(sets, i, domain);
    CoversIff(sets, j, domain);
    BothProper(sets, i, j);
    hide AllProper;
    BothEnd(Canonical(domain), Canonical(sets[i].domain), Canonical(sets[j].domain));
    EndsIff(sets[i].domain, sets[j].domain);
  }

  lemma BothEnd(name: Name, d: Name, e: Name)
    requires EndsIn(name, d) && EndsIn(name, e) && |e| <= |d|
    ensures EndsIn(d, e)
  {
    var p :| name == p + d;
    var q :| name == q + e;
    assert d == name[|p|..] && e == name[|q|..];
    assert d == d[..|d| - |e|] + e;
  }

  lemma LongestFound(sets: seq<Setting>, domain: string, r: Option<string>)
    requires AllProper(sets) && IsProper(domain) && IsLookup(AfterSets(sets), Canonical(domain), r)
    ensures IsLongest(sets, domain, r)
  {
    hide Canonical, Covers, Bare, IsProper, SameText, IsLookup, AllProper;
    var m, name := AfterSets(sets), Canonical(domain);
    LookupEnds(m, name, r);
    if r.None? {
      forall i | 0 <= i < |sets| ensures !Covers(sets, i, domain) {
        SetIsKey(sets, i);
        CoversIff(sets, i, domain);
      }
    } else {
      var d :| d in m && d != [] && EndsIn(name, d) && r.value == m[d]
        && forall e | e in m && EndsIn(name, e) :: |e| <= |d|;
      var i := KeysAreSet(sets, d);
      CoversIff(sets, i, domain);
      forall j | 0 <= j < |sets| && Covers(sets, j, domain)
        ensures |Bare(sets[j].domain)| <= |Bare(sets[i].domain)|
      {
        SetIsKey(sets, j);
        CoversIff(sets, j, domain);
        FewerLabels(sets, i, j, domain);
      }
      forall j | i < j < |sets| ensures !SameText(Bare(sets[j].domain), Bare(sets[i].domain)) {
        BothProper(sets, i, j);
        SameNameIff(sets[j].domain, sets[i].domain);
      }
    }
  }

  lemma BothProper(sets: seq<Setting>, i: nat, j: nat)
    requires AllProper(sets) && i < |sets| && j < |sets|
    ensures IsProper(sets[i].domain) && IsProper(sets[j].domain)
  {
  }

  class DomainMap {
    var m: Entries

    constructor ()
      ensures m == map[]
    {
      m := map[];
    }

    method Set(domain: string, value: string)
      modifies this
      ensures m == old(m)[Canonical(domain) := value]
    {
      m := m[Canonical(domain) := value];
    }

    /** Finds what was last set for the name, however it was spelt. */
    method GetExact(domain: string) returns (r: Option<string>)
      ensures forall sets | m == AfterSets(sets) :: IsLastSet(sets, domain, r)
    {
      var d := Canonical(domain);
      r := if d in m then Some(m[d]) else None;
      forall sets | m == AfterSets(sets) ensures IsLastSet(sets, domain, r) {
        LastSetKept(sets, domain);
      }
    }

    /** Walks the map in any order, keeping the match with the most labels. */
    method GetMostSpecific(domain: string) returns (mv: string, ok: bool)
      ensures IsLookup(m, Canonical(domain), if ok then Some(mv) else None)
      ensures !ok ==> mv == ""
      ensures ok <==> exists d | d in m :: d != [] && EndsIn(Canonical(domain), d)
      ensures ok ==> exists d | d in m ::
                d != [] && EndsIn(Canonical(domain), d) && mv == m[d]
                && forall e | e in m && EndsIn(Canonical(domain), e) :: |e| <= |d|
      ensures forall sets | m == AfterSets(sets) && AllProper(sets) && IsProper(domain) ::
                IsLongest(sets, domain, if ok then Some(mv) else None)
    {
      var name := Canonical(domain);
      var mc := 0;
      mv, ok := "", false;
      ghost var best: Name := [];
      var left := m.Keys;
      while left != {}
        invariant left <= m.Keys
        invariant mc == |best|
        invariant ok <==> best != []
        invariant !ok ==> mv == ""
        invariant ok ==> best in m && IsSubDomain(best, name) && mv == m[best]
        invariant forall e | e in m && e !in left && IsSubDomain(e, name) :: |e| <= mc
        decreases left
      {
        var d :| d in left;
        left := left - {d};
        if !IsSubDomain(d, name) {
          continue;
        }
        var c := |d|;
        if c > mc {
          mc, mv, ok, best := c, m[d], true, d;
        }
      }
      if ok {
        assert IsMostSpecific(m, name, best);
      }
      LookupEnds(m, name, if ok then Some(mv) else None);
      forall sets | m == AfterSets(sets) && AllProper(sets) && IsProper(domain)
        ensures IsLongest(sets, domain, if ok then Some(mv) else None)
      {
        LongestFound(sets, domain, if ok then Some(mv) else None);
      }
    }
  }

  // ---------- the parser ----------

  datatype Pair = Blank | NoColon | Pair(key: Name, value: string)

  /** One comma-separated part of the configuration. */
  function ParsePart(part: string): Pair {
    var pair := TrimSpace(part);
    if pair == "" then Blank
    else if ':' !in pair then NoColon
    else
      var i := IndexOf(pair, ':');
      Pair(Canonical(TrimSpace(pair[..i])), TrimSpace(pair[i + 1..]))
  }

  /** The map that the first `n` parts give, unless one of them has no colon. */
  function ParseUpTo(parts: seq<string>, n: nat): Option<Entries>
    requires n <= |parts|
  {
    if n == 0 then Some(map[])
    else match ParseUpTo(parts, n - 1)
      case None => None
      case Some(m) =>
        match ParsePart(parts[n - 1])
        case Blank => Some(m)
        case NoColon => None
        case Pair(key, value) => Some(m[key := value])
  }

  function Parse(s: string): Option<Entries> {
    var parts := Split(s, ',');
    ParseUpTo(parts, |parts|)
  }

  method DomainMapFromString(s: string) returns (r: Option<DomainMap>)
    ensures r.Some? <==> Parse(s).Some?
    ensures r.Some? ==> fresh(r.value) && r.value.m == Parse(s).value
  {
    hide Canonical, TrimSpace, Split, Lower;
    var m := new DomainMap();
    var parts := Split(s, ',');
    for n := 0 to |parts|
      invariant ParseUpTo(parts, n) == Some(m.m)
    {
      var pair := TrimSpace(parts[n]);
      if pair == "" {
        continue;
      }
      if ':' !in pair {
        FailureStays(parts, n + 1, |parts|);
        return None;
      }
      var i := IndexOf(pair, ':');
      m.Set(TrimSpace(pair[..i]), TrimSpace(pair[i + 1..]));
    }
    r := Some(m);
  }

  lemma {:induction false} FailureStays(parts: seq<string>, k: nat, n: nat)
    requires k <= n <= |parts| && ParseUpTo(parts, k).None?
    ensures ParseUpTo(parts, n).None?
    decreases n
  {
    hide ParsePart;
    if k < n {
      FailureStays(parts, k, n - 1);
    }
  }

  /** Parsing fails exactly when some part that is not blank has no colon. */
  lemma {:induction false} ParseFailsIff(parts: seq<string>, n: nat)
    requires n <= |parts|
    ensures ParseUpTo(parts, n).None? <==> exists i | 0 <= i < n :: ParsePart(parts[i]).NoColon?
  {
    hide ParsePart;
    if n > 0 {
      ParseFailsIff(parts, n - 1);
    }
  }

  predicate LacksColon(part: string) {
    !IsBlank(part) && ':' !in part
  }

  lemma NoColonIff(part: string)
    ensures ParsePart(part).NoColon? <==> TrimSpace(part) != "" && ':' !in TrimSpace(part)
  {
    hide TrimSpace, IndexOf, Canonical;
  }

  lemma PartFails(part: string)
    ensures ParsePart(part).NoColon? <==> LacksColon(part)
  {
    hide ParsePart, TrimSpace, IsBlank;
    NoColonIff(part);
    TrimKeeps(part, ':');
  }

  /** Text fails to parse exactly when some comma-separated part has something other than white space but no
      colon. */
  lemma ParseFails(s: string)
    ensures var parts := Split(s, ','); Parse(s).None? <==> exists i | 0 <= i < |parts| :: LacksColon(parts[i])
  {
    hide ParsePart, LacksColon;
    var parts := Split(s, ',');
    assert Parse(s) == ParseUpTo(parts, |parts|);
    ParseFailsIff(parts, |parts|);
    if Parse(s).None? {
      var i :| 0 <= i < |parts| && ParsePart(parts[i]).NoColon?;
      PartFails(parts[i]);
      assert LacksColon(Split(s, ',')[i]);
    } else {
      forall i | 0 <= i < |parts| ensures !LacksColon(parts[i]) {
        PartFails(parts[i]);
      }
    }
  }

  predicate Sets(part: string, key: Name) {
    ParsePart(part).Pair? && ParsePart(part).key == key
  }

  /** Part `i` sets the key, and no later one does. */
  ghost predicate SetsLast(parts: seq<string>, n: nat, key: Name, i: nat)
    requires n <= |parts|
  {
    i < n && Sets(parts[i], key) && forall j | i < j < n :: !Sets(parts[j], key)
  }

  /** Otherwise the map has the keys of the parts, each with its last value. */
  lemma {:induction false} LastValueWins(parts: seq<string>, n: nat, key: Name)
    requires n <= |parts|
    ensures ParseUpTo(parts, n).Some? ==>
              (key in ParseUpTo(parts, n).value <==> exists i: nat :: SetsLast(parts, n, key, i))
    ensures ParseUpTo(parts, n).Some? ==>
              forall i: nat | SetsLast(parts, n, key, i) ::
                key in ParseUpTo(parts, n).value && ParseUpTo(parts, n).value[key] == ParsePart(parts[i]).value
  {
    hide ParsePart;
    if n > 0 && ParseUpTo(parts, n).Some? {
      LastValueWins(parts, n - 1, key);
      if Sets(parts[n - 1], key) {
        assert SetsLast(parts, n, key, n - 1);
      } else {
        forall i: nat ensures SetsLast(parts, n, key, i) <==> SetsLast(parts, n - 1, key, i) {
        }
        if key in ParseUpTo(parts, n).value {
          var i: nat :| SetsLast(parts, n - 1, key, i);
          assert SetsLast(parts, n, key, i);
        }
      }
    }
  }

  // ---------- printing and parsing ----------

  function PrintName(key: Name): string {
    Join(key, '.') + "."
  }

  function PrintPair(key: Name, value: string): string {
    PrintName(key) + ":" + value
  }

  lemma {:induction false} JoinLower(parts: seq<string>)
    requires forall i | 0 <= i < |parts| :: IsLower(parts[i])
    ensures IsLower(Join(parts, '.'))
  {
    if |parts| > 1 {
      JoinLower(parts[1..]);
    }
  }

  lemma {:induction false} JoinDot(parts: seq<string>)
    requires parts != []
    ensures Join(parts + [""], '.') == Join(parts, '.') + "."
  {
    if |parts| > 1 {
      JoinDot(parts[1..]);
      assert (parts + [""])[1..] == parts[1..] + [""];
    } else {
      assert (parts + [""])[1..] == [""];
    }
  }

  predicate IsLabel(l: string) {
    IsLower(l) && '.' !in l
  }

  /** A printed name is read back exactly when it is the canonical form of some name: its labels are in lower case and
      have no dots, and it is not a single empty label, which prints like the root. */
  lemma NameReadBackIff(key: Name)
    ensures Canonical(PrintName(key)) == key <==> key != [""] && forall i | 0 <= i < |key| :: IsLabel(key[i])
  {
    CanonicalLabels(PrintName(key));
    if key != [] && key != [""] && forall i | 0 <= i < |key| :: IsLabel(key[i]) {
      NameReadBack(key);
    } else if key == [""] {
      assert PrintName(key) == ".";
    }
  }

  lemma NameReadBack(key: Name)
    requires key != [] && key != [""] && forall i | 0 <= i < |key| :: IsLabel(key[i])
    ensures Canonical(PrintName(key)) == key
  {
    var parts := key + [""];
    JoinDot(key);
    JoinLower(parts);
    LowerOfLower(PrintName(key));
    SplitJoin(parts, '.');
    assert PrintName(key) != "." by {
      assert Split(".", '.') == ["", ""] by {
        SplitPrefix("", "", '.');
      }
      assert |key| == 1 ==> key == [key[0]];
    }
  }

  /** What can be printed and parsed again: canonical names and values, free of the separators and of white space at
      the ends. Values may contain colons. */
  predicate Printable(key: Name, value: string) {
    && Canonical(PrintName(key)) == key
    && ',' !in PrintName(key) && ':' !in PrintName(key) && Trimmed(PrintName(key))
    && ',' !in value && Trimmed(value)
  }

  lemma {:induction false} TrimOfTrimmed(s: string)
    requires Trimmed(s)
    ensures TrimSpace(s) == s
  {
  }

  lemma PrintedTrimmed(key: Name, value: string)
    requires Printable(key, value)
    ensures Trimmed(PrintPair(key, value))
  {
    hide Canonical, Join;
    var name, pair := PrintName(key), PrintPair(key, value);
    assert pair[0] == name[0];
    assert pair[|pair| - 1] == if value == "" then ':' else value[|value| - 1];
  }

  lemma {:induction false} ParseTrimmedPart(name: string, value: string)
    requires ':' !in name
    requires Trimmed(name) && Trimmed(value) && Trimmed(name + ":" + value)
    ensures ParsePart(name + ":" + value) == Pair(Canonical(name), value)
  {
    hide Canonical, TrimSpace, Trimmed;
    var part := name + ":" + value;
    TrimOfTrimmed(name);
    TrimOfTrimmed(value);
    TrimOfTrimmed(part);
    IndexOfPrefix(name, value, ':');
    assert part[|name|] == ':';
    assert part[..|name|] == name && part[|name| + 1..] == value;
  }

  /** White space around a part, a name or a value makes no difference. */
  lemma SpacesIgnored(a: string, name: string, b: string, c: string, value: string, d: string)
    requires IsBlank(a) && IsBlank(b) && IsBlank(c) && IsBlank(d)
    requires name != "" && Trimmed(name) && ':' !in name && Trimmed(value)
    ensures ParsePart(a + name + b + ":" + c + value + d) == Pair(Canonical(name), value)
  {
    hide Canonical, TrimSpace, IsSpace;
    var left := name + b;
    assert ':' !in b by {
      hide *;
      NoColonInBlank(b);
    }
    TrimAround("", name, b);
    assert "" + name + b == left;
    var right, rest, mid: string;
    if value == "" {
      right, rest := "", c + d;
      BlankConcat(c, d);
    } else {
      right, rest := c + value, d;
    }
    mid := left + [':'] + right;
    TrimmedMiddle(name, b, right);
    assert a + name + b + ":" + c + value + d == a + mid + rest;
    TrimAround(a, mid, rest);
    IndexOfPrefix(left, right, ':');
    assert mid[..|left|] == left && mid[|left| + 1..] == right && mid[|left|] == ':';
    TrimAround(if value == "" then "" else c, value, "");
    assert right == (if value == "" then "" else c) + value + "";
  }

  lemma NoColonInBlank(b: string)
    requires IsBlank(b)
    ensures ':' !in b
  {
  }

  lemma TrimmedMiddle(name: string, b: string, right: string)
    requires name != "" && Trimmed(name) && (right == "" || !IsSpace(right[|right| - 1]))
    ensures Trimmed(name + b + [':'] + right)
  {
  }

  /** A printed entry is read back. */
  lemma {:induction false} PairReadBack(key: Name, value: string)
    requires Printable(key, value)
    ensures ParsePart(PrintPair(key, value)) == Pair(key, value)
    ensures ',' !in PrintPair(key, value)
  {
    PrintedTrimmed(key, value);
    hide ParsePart, PrintName, Trimmed, Canonical;
    ParseTrimmedPart(PrintName(key), value);
  }

  function Print(es: seq<(Name, string)>): string {
    Join(PrintAll(es), ',')
  }

  function PrintAll(es: seq<(Name, string)>): (r: seq<string>)
    ensures |r| == |es|
  {
    if es == [] then [] else PrintAll(es[..|es| - 1]) + [PrintPair(es[|es| - 1].0, es[|es| - 1].1)]
  }

  /** The entries in the order given, the last one for a key winning. */
  function MapOf(es: seq<(Name, string)>): Entries {
    if es == [] then map[] else MapOf(es[..|es| - 1])[es[|es| - 1].0 := es[|es| - 1].1]
  }

  lemma {:induction false} PrintedRead(es: seq<(Name, string)>)
    requires forall i | 0 <= i < |es| :: Printable(es[i].0, es[i].1)
    ensures forall i | 0 <= i < |es| :: ',' !in PrintAll(es)[i]
    ensures ParseUpTo(PrintAll(es), |es|) == Some(MapOf(es))
  {
    hide Printable, PrintPair, ParsePart;
    if es != [] {
      var before, last := es[..|es| - 1], es[|es| - 1];
      PrintedRead(before);
      PairReadBack(last.0, last.1);
      ParsePrefix(PrintAll(before), [PrintPair(last.0, last.1)], |before|);
    }
  }

  lemma {:induction false} ParsePrefix(a: seq<string>, b: seq<string>, n: nat)
    requires n <= |a|
    ensures ParseUpTo(a + b, n) == ParseUpTo(a, n)
  {
    hide ParsePart;
    if n > 0 {
      ParsePrefix(a, b, n - 1);
    }
  }

  /** Parsing what was printed gives back the map, in whatever order its entries were listed. */
  lemma {:induction false} PrintThenParse(m: Entries, es: seq<(Name, string)>)
    requires forall key | key in m :: Printable(key, m[key])
    requires forall i | 0 <= i < |es| :: es[i].0 in m && es[i].1 == m[es[i].0]
    requires forall key | key in m :: exists i | 0 <= i < |es| :: es[i].0 == key
    ensures Parse(Print(es)) == Some(m)
  {
    PrintedRead(es);
    if es == [] {
      assert Split("", ',') == [""] && m == map[];
      assert ParsePart("").Blank?;
      assert ParseUpTo([""], 0) == Some(map[]);
    } else {
      SplitJoin(PrintAll(es), ',');
      ListedMap(m, es);
    }
  }

  lemma {:induction false} MapOfEntries(m: Entries, es: seq<(Name, string)>)
    requires forall i | 0 <= i < |es| :: es[i].0 in m && es[i].1 == m[es[i].0]
    ensures forall key :: key in MapOf(es) <==> exists i | 0 <= i < |es| :: es[i].0 == key
    ensures forall key | key in MapOf(es) :: key in m && MapOf(es)[key] == m[key]
  {
    if es != [] {
      var before := es[..|es| - 1];
      MapOfEntries(m, before);
      forall key ensures key in MapOf(es) <==> exists i | 0 <= i < |es| :: es[i].0 == key {
        if i :| 0 <= i < |es| && es[i].0 == key {
          assert i < |before| ==> before[i].0 == key;
        }
        if i :| 0 <= i < |before| && before[i].0 == key {
          assert es[i].0 == key;
        }
      }
    }
  }

  lemma {:induction false} ListedMap(m: Entries, es: seq<(Name, string)>)
    requires forall i | 0 <= i < |es| :: es[i].0 in m && es[i].1 == m[es[i].0]
    requires forall key | key in m :: exists i | 0 <= i < |es| :: es[i].0 == key
    ensures MapOf(es) == m
  {
    MapOfEntries(m, es);
  }
}
