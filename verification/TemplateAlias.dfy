/**
  The template an alias stands for: the document backend reads the hundred most recently
  updated candidates and sorts them by rank, the relational backend orders by rank and then by
  update time and takes the first row.
 */
module TemplateAlias {
  import opened Wrappers

  datatype Template = Template(id: string, alias: string, owner: Option<string>, warmImage: string,
      registryImage: string,
                               updatedAt: int)

  /** An empty owner or excluded identifier stands for an argument that was not given. */
  datatype Lookup = Lookup(alias: string, owner: string, exclude: string)

  const LIMIT: nat := 100

  predicate Candidate(t: Template, q: Lookup) {
    && t.alias == q.alias
    && (q.exclude != "" ==> t.id != q.exclude)
    && (q.owner != "" ==> t.owner in {Some(q.owner), None, Some("")})
  }

  function Candidates(table: seq<Template>, q: Lookup): seq<Template> {
    if table == [] then []
    else (if Candidate(table[0], q) then [table[0]] else []) + Candidates(table[1..], q)
  }

  /** Rows with an image come first, then rows of the caller. */
  function Rank(t: Template, q: Lookup): nat {
    (if t.warmImage != "" || t.registryImage != "" then 0 else 2)
        + (if q.owner != "" && t.owner == Some(q.owner) then 0 else 1)
  }

  /** A stable sort by a key, the smallest first. */
  function Insert(x: Template, s: seq<Template>, key: Template -> int): seq<Template> {
    if s == [] || key(x) <= key(s[0]) then [x] + s else [s[0]] + Insert(x, s[1..], key)
  }

  function Sort(s: seq<Template>, key: Template -> int): seq<Template> {
    if s == [] then [] else Insert(s[0], Sort(s[1..], key), key)
  }

  function Newest(t: Template): int { -t.updatedAt }

  function Recent(table: seq<Template>, q: Lookup): seq<Template> {
    var sorted := Sort(Candidates(table, q), Newest);
    if |sorted| <= LIMIT then sorted else sorted[..LIMIT]
  }

  /** The document backend's choice. */
  function MongoChoice(table: seq<Template>, q: Lookup): Option<Template> {
    if q.alias == "" || Recent(table, q) == [] then None
    else
      SortKeeps(Recent(table, q), t => Rank(t, q));
      Some(Sort(Recent(table, q), t => Rank(t, q))[0])
  }

  /** The relational backend's order, and the row it puts first. */
  predicate OrderedBefore(a: Template, b: Template, q: Lookup) {
    Rank(a, q) < Rank(b, q) || (Rank(a, q) == Rank(b, q) && a.updatedAt > b.updatedAt)
  }

  ghost predicate PostgresChoice(table: seq<Template>, q: Lookup, t: Template) {
    && q.alias != "" && t in Candidates(table, q)
    && forall other :: other in Candidates(table, q) && other != t ==> OrderedBefore(t, other, q)
  }

  // ----- The sort -----

  lemma {:induction false} InsertKeeps(x: Template, s: seq<Template>, key: Template -> int)
    ensures multiset(Insert(x, s, key)) == multiset(s) + multiset{x}
  {
    if !(s == [] || key(x) <= key(s[0])) {
      InsertKeeps(x, s[1..], key);
      assert s == [s[0]] + s[1..];
    }
  }

  lemma {:induction false} SortKeeps(s: seq<Template>, key: Template -> int)
    ensures multiset(Sort(s, key)) == multiset(s) && |Sort(s, key)| == |s|
  {
    if s == [] {
    } else {
      SortKeeps(s[1..], key);
      InsertKeeps(s[0], Sort(s[1..], key), key);
      assert s == [s[0]] + s[1..];
    }
    assert |Sort(s, key)| == |multiset(Sort(s, key))|;
    assert |s| == |multiset(s)|;
  }

  lemma SameElements(s: seq<Template>, key: Template -> int)
    ensures forall t :: t in Sort(s, key) <==> t in s
  {
    SortKeeps(s, key);
    forall t ensures t in Sort(s, key) <==> t in s {
      assert t in Sort(s, key) <==> t in multiset(Sort(s, key));
      assert t in s <==> t in multiset(s);
    }
  }

  predicate Sorted(s: seq<Template>, key: Template -> int) {
    forall i, j :: 0 <= i < j < |s| ==> key(s[i]) <= key(s[j])
  }

  lemma {:induction false} InsertSorts(x: Template, s: seq<Template>, key: Template -> int)
    requires Sorted(s, key)
    ensures Sorted(Insert(x, s, key), key)
  {
    if s != [] && key(x) > key(s[0]) {
      InsertSorts(x, s[1..], key);
      InsertKeeps(x, s[1..], key);
      var rest := Insert(x, s[1..], key);
      forall i | 0 <= i < |rest| ensures key(s[0]) <= key(rest[i]) {
        assert rest[i] in multiset(rest);
        assert rest[i] == x || rest[i] in s[1..];
      }
    }
  }

  lemma {:induction false} SortSorts(s: seq<Template>, key: Template -> int)
    ensures Sorted(Sort(s, key), key)
  {
    if s == [] {
    } else {
      SortSorts(s[1..], key);
      InsertSorts(s[0], Sort(s[1..], key), key);
    }
  }

  /** A stable sort puts the earliest of the smallest first. */
  lemma {:induction false} SortHead(s: seq<Template>, key: Template -> int) returns (i: nat)
    requires s != []
    ensures i < |s| && |Sort(s, key)| == |s| && Sort(s, key)[0] == s[i]
    ensures (forall j :: 0 <= j < |s| ==> key(s[i]) <= key(s[j])) && forall j :: 0 <= j < i ==> key(s[i]) < key(s[j])
  {
    SortKeeps(s, key);
    if |s| == 1 {
      i := 0;
    } else {
      var k := SortHead(s[1..], key);
      i := if key(s[0]) <= key(s[1..][k]) then 0 else k + 1;
      assert forall j :: 1 <= j < |s| ==> s[j] == s[1..][j - 1];
    }
  }

  // ----- The two choices -----

  predicate Distinct(s: seq<Template>) { forall i, j :: 0 <= i < j < |s| ==> s[i].updatedAt != s[j].updatedAt }

  lemma DistinctSorted(s: seq<Template>)
    requires Distinct(s)
    ensures var r := Sort(s, Newest); forall i, j :: 0 <= i < j < |r| ==> r[i].updatedAt > r[j].updatedAt
  {
    SortSorts(s, Newest);
    SortKeeps(s, Newest);
    DistinctKeys(s);
    var r := Sort(s, Newest);
    forall i, j | 0 <= i < j < |r| ensures r[i].updatedAt > r[j].updatedAt {
      assert Newest(r[i]) <= Newest(r[j]);
      if r[i].updatedAt == r[j].updatedAt {
        assert r[i] in multiset(r) && r[j] in multiset(r);
        assert r[i] == r[j];
        TwiceInMultiset(r, i, j);
        assert false;
      }
    }
  }

  lemma TwiceInMultiset(r: seq<Template>, i: nat, j: nat)
    requires i < j < |r| && r[i] == r[j]
    ensures multiset(r)[r[i]] >= 2
  {
    assert r == r[..i] + [r[i]] + r[i + 1..j] + [r[j]] + r[j + 1..];
  }

  /** Rows with different update times are each there once, and told apart by them. */
  lemma {:induction false} DistinctKeys(s: seq<Template>)
    requires Distinct(s)
    ensures forall t :: multiset(s)[t] <= 1
    ensures forall a, b :: a in multiset(s) && b in multiset(s) && a.updatedAt == b.updatedAt ==> a == b
  {
    if s == [] {
    } else {
      DistinctKeys(s[1..]);
      assert s == [s[0]] + s[1..];
      forall t | t in s[1..] ensures t.updatedAt != s[0].updatedAt {
        var k :| 0 <= k < |s[1..]| && s[1..][k] == t;
        assert s[k + 1] == t;
      }
      assert forall t :: t in multiset(s) ==> t == s[0] || t in s[1..];
    }
  }

  /** The choice of the document backend is the relational order's first among the recent rows. */
  lemma MongoChoosesAmongRecent(table: seq<Template>, q: Lookup)
    requires q.alias != "" && Distinct(Candidates(table, q)) && Candidates(table, q) != []
    ensures MongoChoice(table, q).Some?
    ensures var t, recent := MongoChoice(table, q).value, Recent(table, q);
            t in recent && forall other :: other in recent && other != t ==> OrderedBefore(t, other, q)
  {
    var recent := Recent(table, q);
    SortKeeps(Candidates(table, q), Newest);
    DistinctSorted(Candidates(table, q));
    assert forall i, j :: 0 <= i < j < |recent| ==> recent[i].updatedAt > recent[j].updatedAt;
    var i := SortHead(recent, t => Rank(t, q));
    var t := recent[i];
    forall other | other in recent && other != t ensures OrderedBefore(t, other, q) {
      var j :| 0 <= j < |recent| && recent[j] == other;
      assert Rank(t, q) <= Rank(recent[j], q);
      if j < i { assert Rank(t, q) < Rank(recent[j], q); }
    }
  }

  lemma OrderIsAsymmetric(a: Template, b: Template, q: Lookup)
    ensures OrderedBefore(a, b, q) ==> !OrderedBefore(b, a, q)
  {
  }

  /** For candidates with different update times, both backends choose the same row exactly when
      the relational choice is among the hundred most recently updated. */
  lemma ChoicesAgreeIff(table: seq<Template>, q: Lookup, t: Template)
    requires Distinct(Candidates(table, q)) && PostgresChoice(table, q, t)
    ensures MongoChoice(table, q) == Some(t) <==> t in Recent(table, q)
  {
    MongoChoosesAmongRecent(table, q);
    SameElements(Candidates(table, q), Newest);
    var m := MongoChoice(table, q).value;
    assert m in Sort(Candidates(table, q), Newest);
    OrderIsAsymmetric(t, m, q);
  }

  /** So they agree whenever there are at most a hundred candidates. */
  lemma ChoicesAgreeUpToLimit(table: seq<Template>, q: Lookup, t: Template)
    requires Distinct(Candidates(table, q)) && |Candidates(table, q)| <= 100 && PostgresChoice(table, q, t)
    ensures MongoChoice(table, q) == Some(t)
  {
    SortKeeps(Candidates(table, q), Newest);
    SameElements(Candidates(table, q), Newest);
    ChoicesAgreeIff(table, q, t);
  }

  lemma {:induction false} SomeoneIsFirst(s: seq<Template>, q: Lookup) returns (t: Template)
    requires s != [] && Distinct(s)
    ensures t in s && forall other :: other in s && other != t ==> OrderedBefore(t, other, q)
  {
    t := s[0];
    if |s| == 1 {
    } else {
      var u := SomeoneIsFirst(s[1..], q);
      var k :| 0 <= k < |s[1..]| && s[1..][k] == u;
      assert s[k + 1] == u && s[0].updatedAt != u.updatedAt;
      t := if OrderedBefore(s[0], u, q) then s[0] else u;
      assert forall other :: other in s ==> other == s[0] || other in s[1..];
    }
  }

  /** The document backend finds nothing exactly when there is no alias or no candidate; and the
      relational order has a first row exactly when there is, if the update times differ. */
  lemma NothingIff(table: seq<Template>, q: Lookup)
    ensures MongoChoice(table, q) == None <==> q.alias == "" || Candidates(table, q) == []
    ensures Distinct(Candidates(table, q)) ==>
              ((forall t :: !PostgresChoice(table, q, t)) <==> q.alias == "" || Candidates(table, q) == [])
  {
    SortKeeps(Candidates(table, q), Newest);
    if q.alias != "" && Candidates(table, q) != [] && Distinct(Candidates(table, q)) {
      var t := SomeoneIsFirst(Candidates(table, q), q);
      assert PostgresChoice(table, q, t);
    }
  }

  // ----- What the choice means -----

  /** The template goes by the alias, is not the excluded one, and is the caller's or nobody's. */
  predicate MayUse(t: Template, q: Lookup) {
    && t.alias == q.alias && (q.exclude == "" || t.id != q.exclude)
    && (q.owner == "" || t.owner == Some(q.owner) || t.owner == None || t.owner == Some(""))
  }

  predicate HasImage(t: Template) { t.warmImage != "" || t.registryImage != "" }

  predicate Owned(t: Template, q: Lookup) { q.owner != "" && t.owner == Some(q.owner) }

  /** One template is preferred to another: for having an image, then for being the caller's own, then
      for being newer. */
  predicate Preferred(t: Template, u: Template, q: Lookup) {
    if HasImage(t) != HasImage(u) then HasImage(t)
    else if Owned(t, q) != Owned(u, q) then Owned(t, q)
    else t.updatedAt > u.updatedAt
  }

  lemma {:induction false} CandidatesIff(table: seq<Template>, q: Lookup, t: Template)
    ensures t in Candidates(table, q) <==> t in table && MayUse(t, q)
  {
    if table == [] {
    } else {
      CandidatesIff(table[1..], q, t);
      assert t in table <==> t == table[0] || t in table[1..];
    }
  }

  /** The relational choice is the template of the table that may be used and is preferred to every
      other one that may. */
  lemma PostgresChoosesPreferred(table: seq<Template>, q: Lookup, t: Template)
    ensures PostgresChoice(table, q, t) <==>
              && q.alias != "" && t in table && MayUse(t, q)
              && forall u :: u in table && MayUse(u, q) && u != t ==> Preferred(t, u, q)
  {
    CandidatesIff(table, q, t);
    forall u ensures u in Candidates(table, q) <==> u in table && MayUse(u, q) { CandidatesIff(table, q, u); }
    forall u ensures OrderedBefore(t, u, q) <==> Preferred(t, u, q) {}
  }

  /** With at most a hundred candidates the document backend's is that template too. */
  lemma MongoChoosesPreferred(table: seq<Template>, q: Lookup, t: Template)
    requires Distinct(Candidates(table, q)) && |Candidates(table, q)| <= 100 && q.alias != ""
    requires t in table && MayUse(t, q) && forall u :: u in table && MayUse(u, q) && u != t ==> Preferred(t, u, q)
    ensures MongoChoice(table, q) == Some(t)
  {
    PostgresChoosesPreferred(table, q, t);
    ChoicesAgreeUpToLimit(table, q, t);
  }

  /** The recent candidates are a hundred at most, and every other one is older than all of them. */
  lemma RecentMeaning(table: seq<Template>, q: Lookup, t: Template)
    requires Distinct(Candidates(table, q))
    ensures |Recent(table, q)| == if |Candidates(table, q)| <= 100 then |Candidates(table, q)| else 100
    ensures t in Recent(table, q) ==> t in table && MayUse(t, q)
    ensures t in table && MayUse(t, q) && t !in Recent(table, q) ==>
              forall u :: u in Recent(table, q) ==> u.updatedAt > t.updatedAt
  {
    var sorted := Sort(Candidates(table, q), Newest);
    SortKeeps(Candidates(table, q), Newest);
    SameElements(Candidates(table, q), Newest);
    DistinctSorted(Candidates(table, q));
    CandidatesIff(table, q, t);
    if t in Candidates(table, q) && t !in Recent(table, q) {
      var j :| 0 <= j < |sorted| && sorted[j] == t;
      assert j >= 100;
      forall u | u in Recent(table, q) ensures u.updatedAt > t.updatedAt {
        var i :| 0 <= i < |Recent(table, q)| && Recent(table, q)[i] == u;
        assert sorted[i] == u;
      }
    }
  }

}
