/** Dotted logger names and the law that ties the parent links of a logger hierarchy to the order in
    which its loggers were created. */
module LoggerNames {
  import opened Options

  /** The name the root logger gives itself. */
  const ROOT_NAME := "root"

  /** `startsWith` of `hierarchy.cxx`: a proper prefix, dotted or not. */
  predicate StartsWith(teststr: string, substr: string) {
    |teststr| > |substr| && teststr[..|substr|] == substr
  }

  lemma StartsWithIff(teststr: string, substr: string)
    ensures StartsWith(teststr, substr) <==>
            |substr| < |teststr| && forall i :: 0 <= i < |substr| ==> teststr[i] == substr[i]
  {
    assert |substr| < |teststr| ==> forall i :: 0 <= i < |substr| ==> teststr[..|substr|][i] == teststr[i];
  }

  /** The names the test takes for prefixes of the root's name. */
  lemma RootPrefixes(a: string)
    ensures StartsWith(ROOT_NAME, a) <==> a in {"", "r", "ro", "roo"}
  {
    assert ROOT_NAME[..0] == "" && ROOT_NAME[..1] == "r" && ROOT_NAME[..2] == "ro" && ROOT_NAME[..3] == "roo";
  }

  /** `a` is a proper ancestor of `n`: what stands before one of its dots. */
  ghost predicate Above(a: string, n: string) {
    0 < |a| < |n| && n[|a|] == '.' && n[..|a|] == a
  }

  /** `p` is the nearest ancestor of `n` among `names`, or none if there is no ancestor. */
  ghost predicate Nearest(names: seq<string>, n: string, p: Option<string>) {
    match p
    case Some(a) => a in names && Above(a, n) && forall b :: b in names && Above(b, n) ==> |b| <= |a|
    case None => forall b :: b in names ==> !Above(b, n)
  }

  ghost predicate Before(created: seq<string>, x: string, y: string) {
    exists i, j :: 0 <= i < j < |created| && created[i] == x && created[j] == y
  }

  ghost predicate NoDuplicates(created: seq<string>) {
    forall i, j :: 0 <= i < j < |created| ==> created[i] != created[j]
  }

  /** The nearest ancestor of `n` is missed: it came after `n`, and the test by name took the root for
      one of its descendants. */
  ghost predicate Missed(created: seq<string>, n: string, a: string) {
    StartsWith(ROOT_NAME, a) && Before(created, n, a)
  }

  /** The parent the code gives to logger `n` (none stands for the root). */
  ghost predicate Law(created: seq<string>, n: string, p: Option<string>) {
    match p
    case Some(a) => Nearest(created, n, Some(a)) && !Missed(created, n, a)
    case None => Nearest(created, n, None) || exists a :: Nearest(created, n, Some(a)) && Missed(created, n, a)
  }

  // ----- names

  /** Of two ancestors of one name the shorter one is an ancestor of the longer. */
  lemma AncestorsAreNested(a: string, b: string, n: string)
    requires Above(a, n) && Above(b, n)
    ensures |a| < |b| ==> Above(a, b) && StartsWith(b, a)
    ensures |a| == |b| ==> a == b
  {
    if |a| < |b| {
      assert b[..|a|] == n[..|b|][..|a|];
    }
  }

  /** An ancestor of an ancestor is an ancestor. */
  lemma AboveTransitive(a: string, b: string, n: string)
    requires Above(a, b) && Above(b, n)
    ensures Above(a, n)
  {
    assert b == n[..|b|];
  }

  /** A prefix of the root's name has no ancestors, having no dot. */
  lemma RootPrefixHasNoDot(a: string, b: string)
    requires StartsWith(ROOT_NAME, b)
    ensures !Above(a, b)
  {
    assert forall i :: 0 <= i < |b| ==> b[i] == ROOT_NAME[..|b|][i] == ROOT_NAME[i];
  }

  lemma NearestUnique(names: seq<string>, n: string, p: Option<string>, q: Option<string>)
    requires Nearest(names, n, p) && Nearest(names, n, q)
    ensures p == q
  {
    if p.Some? && q.Some? {
      AncestorsAreNested(p.value, q.value, n);
    }
  }

  lemma {:induction false} NearestExists(names: seq<string>, n: string) returns (p: Option<string>)
    ensures Nearest(names, n, p)
  {
    if names == [] {
      p := None;
    } else {
      var x := names[|names| - 1];
      assert names == names[..|names| - 1] + [x];
      p := NearestExists(names[..|names| - 1], n);
      if Above(x, n) && (p.None? || |p.value| < |x|) {
        p := Some(x);
      }
    }
  }

  // ----- the law

  /** Every history and every name determine one parent. */
  lemma LawUnique(created: seq<string>, n: string, p: Option<string>, q: Option<string>)
    requires Law(created, n, p) && Law(created, n, q)
    ensures p == q
  {
    var r := NearestExists(created, n);
    forall a | Nearest(created, n, Some(a)) ensures r == Some(a) {
      NearestUnique(created, n, r, Some(a));
    }
    if Nearest(created, n, None) {
      NearestUnique(created, n, r, None);
    }
  }

  /** A link is right, that is, leads to the nearest existing ancestor, exactly unless that ancestor is
      missed. */
  lemma LinkRightIff(created: seq<string>, n: string, p: Option<string>)
    requires Law(created, n, p)
    ensures Nearest(created, n, p) <==> forall a :: Nearest(created, n, Some(a)) ==> !Missed(created, n, a)
  {
    if Nearest(created, n, p) {
      forall a | Nearest(created, n, Some(a)) ensures !Missed(created, n, a) {
        NearestUnique(created, n, p, Some(a));
      }
    }
  }

  /** No proper prefix of the root's name was created after one of its descendants: a condition on the
      calls alone. */
  ghost predicate Harmless(created: seq<string>) {
    forall a, n :: Above(a, n) && Before(created, n, a) ==> !StartsWith(ROOT_NAME, a)
  }

  lemma HarmlessIff(created: seq<string>)
    ensures Harmless(created) <==>
            forall a, n :: Above(a, n) && Before(created, n, a) ==> a !in {"r", "ro", "roo"}
  {
    forall a ensures StartsWith(ROOT_NAME, a) <==> a in {"", "r", "ro", "roo"} {
      RootPrefixes(a);
    }
  }

  ghost predicate AllLinksRight(created: seq<string>) {
    forall n, p :: n in created && Law(created, n, p) ==> Nearest(created, n, p)
  }

  lemma {:induction false} ShortestBelow(names: seq<string>, a: string, n: string) returns (m: string)
    requires n in names && Above(a, n)
    ensures m in names && Above(a, m)
    ensures forall b :: b in names && Above(a, b) ==> |m| <= |b|
    decreases |n|
  {
    if b :| b in names && Above(a, b) && |b| < |n| {
      m := ShortestBelow(names, a, b);
    } else {
      m := n;
    }
  }

  /** All links are right after every call exactly if the history is harmless. */
  lemma RightThroughoutIffHarmless(created: seq<string>)
    ensures (forall k :: 0 <= k <= |created| ==> AllLinksRight(created[..k])) <==> Harmless(created)
  {
    if Harmless(created) {
      forall k | 0 <= k <= |created| ensures AllLinksRight(created[..k]) {
        HarmlessPrefix(created, k);
      }
    }
    if a, n :| Above(a, n) && Before(created, n, a) && StartsWith(ROOT_NAME, a) {
      var i, j :| 0 <= i < j < |created| && created[i] == n && created[j] == a;
      WrongLink(created, a, n, i, j);
    }
  }

  lemma HarmlessPrefix(created: seq<string>, k: int)
    requires Harmless(created) && 0 <= k <= |created|
    ensures AllLinksRight(created[..k])
  {
    var c := created[..k];
    forall n, p | Law(c, n, p) ensures Nearest(c, n, p) {
      forall a | Nearest(c, n, Some(a)) ensures !Missed(c, n, a) {
        assert Before(c, n, a) ==> Before(created, n, a);
      }
      LinkRightIff(c, n, p);
    }
  }

  lemma WrongLink(created: seq<string>, a: string, n: string, i: int, j: int)
    requires 0 <= i < j < |created| && created[i] == n && created[j] == a
    requires Above(a, n) && StartsWith(ROOT_NAME, a)
    ensures !AllLinksRight(created[..j + 1])
  {
    var c := created[..j + 1];
    assert c[i] == n && c[j] == a;
    var m := ShortestBelow(c, a, n);
    forall b | b in c && Above(b, m) ensures |b| <= |a| {
      AncestorsAreNested(a, b, m);
    }
    assert Nearest(c, m, Some(a));
    var l :| 0 <= l < |c| && c[l] == m;
    assert m != a && l < j;
    assert Missed(c, m, a);
    assert Law(c, m, None) && !Nearest(c, m, None);
  }

  /** Two harmless histories of the same names give every logger the same parent. */
  lemma TreeDependsOnNamesOnly(one: seq<string>, two: seq<string>, n: string, p: Option<string>, q: Option<string>)
    requires Harmless(one) && Harmless(two) && forall x :: x in one <==> x in two
    requires Law(one, n, p) && Law(two, n, q)
    ensures p == q && Nearest(one, n, p)
  {
    LinkRightIff(one, n, p);
    LinkRightIff(two, n, q);
    assert Nearest(two, n, p);
    NearestUnique(two, n, p, q);
  }

  /** Two histories of the same names that do not give the same tree: created after its child, the
      logger `r` is missed. */
  lemma OrderCanMatter()
    ensures Law(["r", "r.x"], "r.x", Some("r"))
    ensures Law(["r.x", "r"], "r.x", None) && Nearest(["r.x", "r"], "r.x", Some("r"))
  {
    var late := ["r.x", "r"];
    assert Above("r", "r.x");
    assert ROOT_NAME[..1] == "r";
    assert late[0] == "r.x" && late[1] == "r";
    assert Missed(late, "r.x", "r");
    var early := ["r", "r.x"];
    assert early[0] == "r" && early[1] == "r.x";
  }

  // ----- creating one more logger

  lemma BeforeExtended(created: seq<string>, n: string, x: string, y: string)
    requires n !in created
    ensures Before(created + [n], x, y) <==> Before(created, x, y) || (y == n && x in created)
  {
    var after := created + [n];
    assert forall i :: 0 <= i < |created| ==> after[i] == created[i];
    if y == n && x in created {
      var i :| 0 <= i < |created| && created[i] == x;
      assert after[i] == x && after[|created|] == n;
    }
    if Before(after, x, y) {
      var i, j :| 0 <= i < j < |after| && after[i] == x && after[j] == y;
      assert created[i] == x;
    }
  }

  /** An existing logger `c` keeps its parent `p` unless the new name `n` lies between them and does not
      pass for a prefix of the parent's name. */
  lemma LawForOld(created: seq<string>, n: string, c: string, p: Option<string>)
    requires n !in created && c in created && Law(created, c, p)
    ensures var between := Above(n, c) && !(p.Some? && |p.value| > |n|);
      Law(created + [n], c, if between && !StartsWith(if p.Some? then p.value else ROOT_NAME, n) then Some(n) else p)
  {
    var after := created + [n];
    BeforeNew(created, n, c);
    var q := NearestExists(created, c);
    var q' := if Above(n, c) && (q.None? || |q.value| < |n|) then Some(n) else q;
    assert Nearest(after, c, q');
    LawUnique(created, c, p, if q.Some? && Missed(created, c, q.value) then None else q);
    if q.Some? && Above(n, c) {
      AncestorsAreNested(q.value, n, c);
      AncestorsAreNested(n, q.value, c);
      if StartsWith(ROOT_NAME, n) {
        RootPrefixHasNoDot(q.value, n);
      }
      if StartsWith(ROOT_NAME, q.value) {
        RootPrefixHasNoDot(n, q.value);
      }
    }
  }

  lemma BeforeNew(created: seq<string>, n: string, c: string)
    requires n !in created && c in created
    ensures forall a :: a != n ==> (Missed(created + [n], c, a) <==> Missed(created, c, a))
    ensures Missed(created + [n], c, n) <==> StartsWith(ROOT_NAME, n)
  {
    forall a ensures Before(created + [n], c, a) <==> Before(created, c, a) || a == n {
      BeforeExtended(created, n, c, a);
    }
  }

  /** The new logger itself gets its nearest ancestor. */
  lemma LawForNew(created: seq<string>, n: string, p: Option<string>)
    requires n !in created && Nearest(created, n, p)
    ensures Law(created + [n], n, p)
  {
    forall a ensures !Before(created + [n], n, a) {
      BeforeExtended(created, n, n, a);
      assert Before(created, n, a) ==> n in created;
    }
    assert !Above(n, n);
    assert Nearest(created + [n], n, p);
  }

  // ----- the state of a hierarchy, by name

  /** `k` is an ancestor of `c` that does not exist, and neither does anything between them. */
  ghost predicate Absent(created: seq<string>, k: string, c: string) {
    && Above(k, c) && k !in created
    && forall a :: a in created && Above(a, c) ==> |a| < |k|
  }

  /** The names created so far, the parent of each, and the loggers each provision node lists. */
  ghost predicate Consistent(created: seq<string>, links: map<string, Option<string>>, provs: map<string, set<string>>)
  {
    && NoDuplicates(created) && "" !in created
    && (forall n :: n in links <==> n in created)
    && (forall n :: n in links ==> Law(created, n, links[n]))
    && (forall k :: k in provs ==> k !in created)
    && (forall k, c :: k in provs && c in provs[k] ==> c in created && Above(k, c))
    && (forall k, c :: c in created && Absent(created, k, c) ==> k in provs && c in provs[k])
  }

  function NameOf(p: Option<string>): string {
    match p
    case Some(a) => a
    case None => ROOT_NAME
  }

  /** The parent of `c` once logger `n` has been inserted above the loggers in its provision node. */
  ghost function Relinked(provs: map<string, set<string>>, n: string, c: string, p: Option<string>): Option<string> {
    if n in provs && c in provs[n] && !StartsWith(NameOf(p), n) then Some(n) else p
  }

  lemma RelinkedLaw(created: seq<string>, links: map<string, Option<string>>, provs: map<string, set<string>>,
                    n: string, c: string)
    requires Consistent(created, links, provs) && n !in created && c in created
    ensures Law(created + [n], c, Relinked(provs, n, c, links[c]))
  {
    var p := links[c];
    LawForOld(created, n, c, p);
    if p.Some? && Above(n, c) {
      AncestorsAreNested(n, p.value, c);
      AncestorsAreNested(p.value, n, c);
    }
    if Above(n, c) && !Absent(created, n, c) {
      var a :| a in created && Above(a, c) && |a| >= |n|;
      AncestorsAreNested(a, n, c);
      ParentBelow(created, n, c, a, p);
    }
  }

  /** If an existing ancestor `a` of `c` is longer than `n`, so is the parent of `c`. */
  lemma ParentBelow(created: seq<string>, n: string, c: string, a: string, p: Option<string>)
    requires Above(n, c) && a in created && Above(a, c) && |a| > |n| && Law(created, c, p)
    ensures p.Some? && |p.value| > |n|
  {
    if q :| Nearest(created, c, Some(q)) && Missed(created, c, q) {
      AncestorsAreNested(n, q, c);
      RootPrefixHasNoDot(n, q);
    }
  }

  lemma CreateStep(created: seq<string>, links: map<string, Option<string>>, provs: map<string, set<string>>,
                   n: string, links': map<string, Option<string>>, provs': map<string, set<string>>)
    requires Consistent(created, links, provs) && n !in created && n != ""
    requires links'.Keys == links.Keys + {n} && Nearest(created, n, links'[n])
    requires forall c :: c in links ==> links'[c] == Relinked(provs, n, c, links[c])
    requires forall k :: k in provs' <==> (k in provs && k != n) || Absent(created, k, n)
    requires forall k :: k in provs' ==>
      provs'[k] == (if k in provs then provs[k] else {}) + (if Absent(created, k, n) then {n} else {})
    ensures Consistent(created + [n], links', provs')
  {
    CreateKeepsLaw(created, links, provs, n, links');
    CreateKeepsProvisions(created, links, provs, n, provs');
    CreateKeepsNames(created, links, provs, n);
    hide Law, Absent, Relinked, Nearest, Above, NoDuplicates;
  }

  lemma CreateKeepsNames(created: seq<string>, links: map<string, Option<string>>, provs: map<string, set<string>>,
                         n: string)
    requires Consistent(created, links, provs) && n !in created && n != ""
    ensures NoDuplicates(created + [n]) && "" !in created + [n]
    ensures forall x :: x in links.Keys + {n} <==> x in created + [n]
  {
    assert forall x :: x in created + [n] <==> x in created || x == n;
  }

  lemma CreateKeepsLaw(created: seq<string>, links: map<string, Option<string>>, provs: map<string, set<string>>,
                       n: string, links': map<string, Option<string>>)
    requires Consistent(created, links, provs) && n !in created
    requires links'.Keys == links.Keys + {n} && Nearest(created, n, links'[n])
    requires forall c :: c in links ==> links'[c] == Relinked(provs, n, c, links[c])
    ensures forall c :: c in links' ==> Law(created + [n], c, links'[c])
  {
    assert forall c :: c in links <==> c in created;
    hide Law, Nearest, Relinked;
    forall c | c in links' ensures Law(created + [n], c, links'[c]) {
      if c == n {
        LawForNew(created, n, links'[n]);
      } else {
        RelinkedLaw(created, links, provs, n, c);
      }
    }
  }

  /** Provision nodes stay disjoint from loggers, list loggers below them, and list all of those whose
      nearest existing ancestor is above them. */
  lemma CreateKeepsProvisions(created: seq<string>, links: map<string, Option<string>>,
                              provs: map<string, set<string>>, n: string, provs': map<string, set<string>>)
    requires Consistent(created, links, provs) && n !in created
    requires forall k :: k in provs' <==> (k in provs && k != n) || Absent(created, k, n)
    requires forall k :: k in provs' ==>
      provs'[k] == (if k in provs then provs[k] else {}) + (if Absent(created, k, n) then {n} else {})
    ensures forall k :: k in provs' ==> k !in created + [n]
    ensures forall k, c :: k in provs' && c in provs'[k] ==> c in created + [n] && Above(k, c)
    ensures forall k, c :: c in created + [n] && Absent(created + [n], k, c) ==> k in provs' && c in provs'[k]
  {
    var after := created + [n];
    assert forall x :: x in after <==> x in created || x == n;
    AbsentParts(created, n, n);
    ProvisionParts(created, links, provs);
    hide Consistent, Law;
    forall k, c | c in after && Absent(after, k, c) ensures k in provs' && c in provs'[k] {
      AbsentBefore(created, n, k, c);
    }
    forall k, c | k in provs' && c in provs'[k] ensures c in after && Above(k, c) {
      AbsentParts(created, k, n);
    }
    forall k | k in provs' ensures k !in after {
      AbsentParts(created, k, n);
    }
  }

  lemma AbsentParts(created: seq<string>, k: string, c: string)
    ensures Absent(created, k, c) ==> Above(k, c) && k != c && k !in created
  {
  }

  lemma AbsentBefore(created: seq<string>, n: string, k: string, c: string)
    requires Absent(created + [n], k, c)
    ensures Absent(created, k, c) && k != n
  {
    assert forall x :: x in created || x == n ==> x in created + [n];
  }

  lemma ProvisionParts(created: seq<string>, links: map<string, Option<string>>, provs: map<string, set<string>>)
    requires Consistent(created, links, provs)
    ensures forall k :: k in provs ==> k !in created
    ensures forall k, c :: k in provs && c in provs[k] ==> c in created && Above(k, c)
    ensures forall k, c :: c in created && Absent(created, k, c) ==> k in provs && c in provs[k]
  {
  }

  /** The history after requesting `names`: new ones are appended, the empty name stands for the root. */
  ghost function Requested(created: seq<string>, names: seq<string>): seq<string> {
    if names == [] then created
    else
      var before, n := Requested(created, names[..|names| - 1]), names[|names| - 1];
      if n == "" || n in before then before else before + [n]
  }
}
