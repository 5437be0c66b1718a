/** `Hierarchy`, `LoggerImpl` and `RootLogger` of log4cplus. */
module Hierarchies {
  import opened Options
  import opened LoggerNames

  const NOT_SET_LOG_LEVEL := -1
  const DEBUG_LOG_LEVEL := 10000
  const DISABLE_OFF := -1

  class Logger {
    const name: string
    var parent: Logger?
    var ll: int
    var additive: bool
    /** The appenders attached to this logger. */
    var appenders: seq<int>

    constructor (name: string)
      ensures this.name == name && parent == null && ll == NOT_SET_LOG_LEVEL && additive && appenders == []
    {
      this.name := name;
      parent := null;
      ll := NOT_SET_LOG_LEVEL;
      additive := true;
      appenders := [];
    }
  }

  /** `name.find_last_of('.', from)`, or -1. */
  method FindLastDot(name: string, from: int) returns (i: int)
    requires -1 <= from < |name|
    ensures -1 <= i <= from && (0 <= i ==> name[i] == '.')
    ensures forall p :: i < p <= from ==> name[p] != '.'
  {
    i := from;
    while 0 <= i && name[i] != '.'
      invariant -1 <= i <= from
      invariant forall p :: i < p <= from ==> name[p] != '.'
    {
      i := i - 1;
    }
  }

  class Hierarchy {
    const root: Logger
    var loggerPtrs: map<string, Logger>
    var provisionNodes: map<string, seq<Logger>>
    var disableValue: int
    var emittedNoAppenderWarning: bool
    /** The names in `loggerPtrs`, in order of creation. */
    ghost var created: seq<string>

    /** The logger objects and the tables refer to each other consistently. */
    ghost predicate Registered()
      reads this`loggerPtrs, this`provisionNodes
    {
      && root.name == ROOT_NAME
      && (forall n :: n in loggerPtrs ==> loggerPtrs[n].name == n && loggerPtrs[n] != root)
      && (forall k :: k in provisionNodes ==> AllIn(loggerPtrs, provisionNodes[k]))
    }

    ghost predicate IsLogger(c: Logger)
      reads this`loggerPtrs
    {
      In(loggerPtrs, c)
    }

    static ghost predicate AllIn(table: map<string, Logger>, pn: seq<Logger>) {
      forall c :: c in pn ==> In(table, c)
    }

    static ghost predicate In(table: map<string, Logger>, c: Logger) {
      c.name in table && table[c.name] == c
    }

    /** Every parent pointer leads to the root or to a logger of this hierarchy. */
    ghost predicate Attached()
      reads this`loggerPtrs, root`parent, loggerPtrs.Values`parent
    {
      && root.parent == null
      && forall n :: n in loggerPtrs ==> loggerPtrs[n].parent != null &&
                                         (loggerPtrs[n].parent == root || IsLogger(loggerPtrs[n].parent))
    }

    function Target(p: Logger): Option<string> {
      if p == root then None else Some(p.name)
    }

    ghost function Links(): map<string, Option<string>>
      requires Attached()
      reads this`loggerPtrs, root`parent, loggerPtrs.Values`parent
    {
      map n | n in loggerPtrs :: Target(loggerPtrs[n].parent)
    }

    ghost function Provisions(): map<string, set<string>>
      reads this`provisionNodes
    {
      NamesOf(provisionNodes)
    }

    /** The invariant of a hierarchy: in particular every parent link obeys the law. */
    ghost predicate Valid()
      reads this`loggerPtrs, this`provisionNodes, this`created, root, loggerPtrs.Values
    {
      && Registered() && Attached() && root.ll != NOT_SET_LOG_LEVEL
      && Consistent(created, Links(), Provisions())
    }

    constructor ()
      ensures Valid() && created == [] && loggerPtrs == map[] && provisionNodes == map[]
      ensures fresh(root) && root.ll == 10000 && root.additive && root.appenders == []
      ensures disableValue == -1 && !emittedNoAppenderWarning
    {
      var r := new Logger(ROOT_NAME);
      r.ll := DEBUG_LOG_LEVEL;
      root := r;
      loggerPtrs := map[];
      provisionNodes := map[];
      disableValue := DISABLE_OFF;
      emittedNoAppenderWarning := false;
      created := [];
    }

    /** `updateChildren` */
    method UpdateChildren(pn: seq<Logger>, logger: Logger)
      requires logger !in pn && forall c :: c in pn ==> c.parent != null && c.parent != logger
      modifies (set c | c in pn)`parent, logger`parent
      ensures forall c :: c in pn ==>
        c.parent == if StartsWith(old(c.parent).name, logger.name) then old(c.parent) else logger
    {
      for i := 0 to |pn|
        invariant forall c :: c in pn ==> c.parent == old(c.parent) || c.parent == logger
        invariant forall c :: c in pn && c.parent == logger ==> !StartsWith(old(c.parent).name, logger.name)
        invariant forall j :: 0 <= j < i ==>
          pn[j].parent == if StartsWith(old(pn[j].parent).name, logger.name) then old(pn[j].parent) else logger
      {
        var c := pn[i];
        if !StartsWith(c.parent.name, logger.name) {
          logger.parent := c.parent;
          c.parent := logger;
        }
      }
    }

    /** `p` is the nearest existing ancestor of `n`, or the root. */
    ghost predicate NearestLogger(n: string, p: Logger?)
      reads this`loggerPtrs
    {
      if p == root then
        forall a :: a in loggerPtrs ==> !Above(a, n)
      else
        && p != null && IsLogger(p) && Above(p.name, n)
        && forall a :: a in loggerPtrs && Above(a, n) ==> |a| <= |p.name|
    }

    /** `now` is `was` with `logger` added to the provision nodes of its ancestors longer than `i`. */
    static ghost predicate ProvisionedDownTo(was: map<string, seq<Logger>>, now: map<string, seq<Logger>>,
                                             logger: Logger, i: int)
    {
      forall k ::
        if Above(k, logger.name) && |k| > i then
          k in now && now[k] == (if k in was then was[k] else []) + [logger]
        else
          (k in now <==> k in was) && (k in was ==> now[k] == was[k])
    }

    /** From one dot to the next one on the left: the ancestor between them is provided for. */
    static lemma ProvisionedNext(was: map<string, seq<Logger>>, now: map<string, seq<Logger>>, logger: Logger,
                                 i: int, i': int)
      requires ProvisionedDownTo(was, now, logger, i) && -1 <= i' < i < |logger.name| && 0 < i
      requires logger.name[i] == '.' && forall p :: i' < p < i ==> logger.name[p] != '.'
      ensures var k := logger.name[..i];
        ProvisionedDownTo(was, now[k := (if k in now then now[k] else []) + [logger]], logger, i')
    {
    }

    /** The missing ancestor's provision node lists the logger. */
    method Provide(substr: string, logger: Logger)
      modifies this`provisionNodes
      ensures var was := old(provisionNodes);
        provisionNodes == was[substr := (if substr in was then was[substr] else []) + [logger]]
    {
      if substr in provisionNodes {
        provisionNodes := provisionNodes[substr := provisionNodes[substr] + [logger]];
      } else {
        assert [logger] == [] + [logger];
        provisionNodes := provisionNodes[substr := [logger]];
      }
    }

    /** `updateParents`: register the new logger with every missing ancestor up to the nearest existing
        one, and make that one its parent. */
    method UpdateParents(logger: Logger)
      requires logger.name != "" && forall n :: n in loggerPtrs ==> loggerPtrs[n].name == n && loggerPtrs[n] != root
      modifies this`provisionNodes, logger`parent
      ensures NearestLogger(logger.name, logger.parent)
      ensures ProvisionedDownTo(old(provisionNodes), provisionNodes, logger, Depth(logger.parent))
    {
      var name := logger.name;
      var parentFound := false;
      var i := FindLastDot(name, |name| - 1);
      ghost var was := provisionNodes;
      assert ProvisionedDownTo(was, was, logger, i);
      hide ProvisionedDownTo;
      while i > 0
        invariant -1 <= i < |name| && (0 <= i ==> name[i] == '.')
        invariant !parentFound
        invariant forall a :: a in loggerPtrs && Above(a, name) ==> |a| <= i
        invariant ProvisionedDownTo(was, provisionNodes, logger, i)
        decreases i
      {
        var substr := name[..i];
        ghost var i0, now := i, provisionNodes;
        if substr in loggerPtrs {
          parentFound := true;
          logger.parent := loggerPtrs[substr];
          break;
        }
        Provide(substr, logger);
        i := FindLastDot(name, i - 1);
        ProvisionedNext(was, now, logger, i0, i);
      }
      if !parentFound {
        logger.parent := root;
      }
    }

    /** The names listed by provision nodes. */
    static ghost function NamesOf(nodes: map<string, seq<Logger>>): map<string, set<string>> {
      map k | k in nodes :: set c | c in nodes[k] :: c.name
    }

    /** The loggers of `was` as `updateChildren` finds them: `links` and `provs` are their tree by name. */
    ghost predicate Tabled(was: map<string, Logger>, links: map<string, Option<string>>, logger: Logger)
      reads this`provisionNodes, was.Values`parent
    {
      && root.name == ROOT_NAME
      && (forall k :: k in provisionNodes ==> AllIn(was, provisionNodes[k]))
      && (forall n :: n in was ==>
            && n in links && was[n].name == n && was[n] != logger && was[n] != root
            && was[n].parent != null && was[n].parent != logger && Target(was[n].parent) == links[n]
            && (was[n].parent == root || In(was, was[n].parent)))
    }

    /** The new logger takes its place above the loggers in its provision node, which goes. */
    method AdoptChildren(logger: Logger, ghost was: map<string, Logger>, ghost links: map<string, Option<string>>)
      requires Tabled(was, links, logger) && logger != root
      modifies this`provisionNodes, was.Values`parent, logger`parent
      ensures provisionNodes == old(provisionNodes) - {logger.name}
      ensures forall n :: n in was ==>
        was[n].parent != null && (was[n].parent == logger || was[n].parent == root || In(was, was[n].parent))
      ensures Adopted(was, links, NamesOf(old(provisionNodes)), logger)
    {
      var name := logger.name;
      ghost var nodes := provisionNodes;
      if name in provisionNodes {
        assert AllIn(was, nodes[name]);
        forall c | c in nodes[name] ensures c in was.Values {
          assert was[c.name] == c;
        }
        UpdateChildren(provisionNodes[name], logger);
        provisionNodes := provisionNodes - {name};
      }
    }

    ghost predicate Adopted(was: map<string, Logger>, links: map<string, Option<string>>,
                            provs: map<string, set<string>>, logger: Logger)
      reads was.Values`parent
    {
      forall n :: n in was ==>
        && was[n].parent != null && n in links
        && Target(was[n].parent) == Relinked(provs, logger.name, n, links[n])
    }

    ghost function Depth(p: Logger?): int {
      if p == null || p == root then 0 else |p.name|
    }

    lemma ProvisionsAfter(nodes: map<string, seq<Logger>>, logger: Logger)
      requires NearestLogger(logger.name, logger.parent)
      requires ProvisionedDownTo(nodes, provisionNodes, logger, Depth(logger.parent))
      requires forall n :: n in loggerPtrs <==> n in created || n == logger.name
      ensures var n, provs, provs' := logger.name, NamesOf(nodes), NamesOf(provisionNodes);
        && !Absent(created, n, n)
        && (forall k :: k in provs' <==> k in provs || Absent(created, k, n))
        && (forall k :: k in provs' ==>
             provs'[k] == (if k in provs then provs[k] else {}) + (if Absent(created, k, n) then {n} else {}))
    {
    }

    lemma NearestByName(logger: Logger)
      requires NearestLogger(logger.name, logger.parent) && logger.parent != null
      requires forall n :: n in loggerPtrs <==> n in created || n == logger.name
      ensures Nearest(created, logger.name, Target(logger.parent))
    {
      assert !Above(logger.name, logger.name);
    }

    /** Both halves of the relinking done, the tree by name is that of one more `CreateStep`. */
    lemma TreeAfter(was: map<string, Logger>, links: map<string, Option<string>>,
                    nodes: map<string, seq<Logger>>, logger: Logger)
      requires logger.name != "" && logger.name !in was && loggerPtrs == was[logger.name := logger]
      requires Consistent(created, links, NamesOf(nodes)) && links.Keys == was.Keys
      requires Adopted(was, links, NamesOf(nodes), logger) && NearestLogger(logger.name, logger.parent)
      requires ProvisionedDownTo(nodes - {logger.name}, provisionNodes, logger, Depth(logger.parent))
      requires Attached()
      ensures Consistent(created + [logger.name], Links(), Provisions())
    {
      hide Consistent, Absent, Relinked, ProvisionedDownTo, Law, NearestLogger, Nearest;
      var n := logger.name;
      Names(created, links, NamesOf(nodes));
      ProvisionsAfter(nodes - {n}, logger);
      NearestByName(logger);
      assert Links().Keys == links.Keys + {n};
      CreateStep(created, links, NamesOf(nodes), n, Links(), Provisions());
    }

    static lemma Names(created: seq<string>, links: map<string, Option<string>>, provs: map<string, set<string>>)
      requires Consistent(created, links, provs)
      ensures forall n :: n in links <==> n in created
    {
    }

    /** The pointer work of `getInstanceImpl`, with the new logger already in the table. */
    method Relink(logger: Logger, ghost was: map<string, Logger>, ghost links: map<string, Option<string>>)
      requires Tabled(was, links, logger) && logger != root && logger.name != "" && logger.name !in was
      requires loggerPtrs == was[logger.name := logger]
      modifies this`provisionNodes, was.Values`parent, logger`parent
      ensures forall n :: n in was ==>
        was[n].parent != null && (was[n].parent == logger || was[n].parent == root || In(was, was[n].parent))
      ensures Adopted(was, links, NamesOf(old(provisionNodes)), logger)
      ensures NearestLogger(logger.name, logger.parent)
      ensures ProvisionedDownTo(old(provisionNodes) - {logger.name}, provisionNodes, logger, Depth(logger.parent))
    {
      AdoptChildren(logger, was, links);
      UpdateParents(logger);
    }

    lemma TabledNow(logger: Logger)
      requires Registered() && Attached() && logger !in loggerPtrs.Values && logger != root
      ensures Tabled(loggerPtrs, Links(), logger) && Links().Keys == loggerPtrs.Keys && root.parent == null
      ensures root.name == ROOT_NAME && forall n :: n in loggerPtrs ==> loggerPtrs[n].name == n && loggerPtrs[n] != root
      ensures forall k :: k in provisionNodes ==> AllIn(loggerPtrs, provisionNodes[k])
    {
    }

    lemma RegisteredAfter(was: map<string, Logger>, nodes: map<string, seq<Logger>>, logger: Logger)
      requires loggerPtrs == was[logger.name := logger] && logger.name !in was && logger != root
      requires root.name == ROOT_NAME && forall n :: n in was ==> was[n].name == n && was[n] != root
      requires forall k :: k in nodes ==> AllIn(was, nodes[k])
      requires ProvisionedDownTo(nodes - {logger.name}, provisionNodes, logger, Depth(logger.parent))
      ensures Registered()
    {
      forall k | k in provisionNodes ensures AllIn(loggerPtrs, provisionNodes[k]) {
        assert k in nodes ==> AllIn(was, nodes[k]);
      }
    }

    lemma AttachedAfter(was: map<string, Logger>, logger: Logger)
      requires loggerPtrs == was[logger.name := logger] && logger.name !in was
      requires root.parent == null && NearestLogger(logger.name, logger.parent)
      requires forall n :: n in was ==>
        was[n].parent != null && (was[n].parent == logger || was[n].parent == root || In(was, was[n].parent))
      ensures Attached()
    {
    }

    /** Links the new logger into the tree: the second half of `getInstanceImpl`. */
    method Insert(logger: Logger)
      requires Registered() && Attached() && Consistent(created, Links(), Provisions())
      requires logger.name != "" && logger.name !in loggerPtrs && logger != root && logger !in loggerPtrs.Values
      modifies this`loggerPtrs, this`provisionNodes, this`created, loggerPtrs.Values`parent, logger`parent
      ensures Registered() && Attached() && Consistent(created, Links(), Provisions())
      ensures loggerPtrs == old(loggerPtrs)[logger.name := logger] && created == old(created) + [logger.name]
    {
      hide Consistent, Law, Absent, Relinked, ProvisionedDownTo, Adopted, NearestLogger;
      hide Registered, Attached, Tabled, In, AllIn, Links, NamesOf, Depth;
      ghost var was, links, nodes := loggerPtrs, Links(), provisionNodes;
      var name := logger.name;
      TabledNow(logger);
      loggerPtrs := loggerPtrs[name := logger];
      Relink(logger, was, links);
      AttachedAfter(was, logger);
      RegisteredAfter(was, nodes, logger);
      TreeAfter(was, links, nodes, logger);
      created := created + [name];
    }

    /** `getInstanceImpl` */
    method GetInstance(name: string) returns (logger: Logger)
      requires Valid()
      modifies this`loggerPtrs, this`provisionNodes, this`created, loggerPtrs.Values`parent
      ensures Valid()
      ensures name == "" ==> logger == root
      ensures name != "" ==> name in loggerPtrs && loggerPtrs[name] == logger
      ensures name == "" || name in old(created) ==> unchanged(this) && unchanged(old(loggerPtrs.Values))
      ensures name != "" && name !in old(created) ==>
        fresh(logger) && loggerPtrs == old(loggerPtrs)[name := logger] && created == old(created) + [name]
      ensures name != "" && name !in old(created) ==>
        Blank(logger) && logger.name == name && logger.parent != null && Known(logger.parent)
        && SameLevel(Chain(logger), Chain(logger.parent)) && SameServed(Chain(logger), Chain(logger.parent))
    {
      Names(created, Links(), Provisions());
      if name == "" {
        logger := root;
      } else if name in loggerPtrs {
        logger := loggerPtrs[name];
      } else {
        logger := new Logger(name);
        Insert(logger);
        ParentIsHigher(logger);
        BlankInherits(logger);
      }
    }

    /** Without a level and appenders of its own, and passing events on: the state of a new logger. */
    static ghost predicate Blank(c: Logger)
      reads c`ll, c`additive, c`appenders
    {
      c.ll == NOT_SET_LOG_LEVEL && c.additive && c.appenders == []
    }

    /** The two chains have the same level. */
    static ghost predicate SameLevel(s: seq<Logger>, t: seq<Logger>)
      reads s, t
    {
      forall level :: LevelOf(s, level) <==> LevelOf(t, level)
    }

    /** The two chains serve an event to the same appenders. */
    static ghost predicate SameServed(s: seq<Logger>, t: seq<Logger>)
      reads s, t
    {
      forall served :: Served(s, served) <==> Served(t, served)
    }

    /** Such a logger inherits everything: level and appenders are those of its parent. */
    lemma BlankInherits(c: Logger)
      requires Valid() && Known(c) && c != root && Blank(c)
      ensures c.parent != null && Known(c.parent)
      ensures SameLevel(Chain(c), Chain(c.parent)) && SameServed(Chain(c), Chain(c.parent))
    {
      ChainUp(c);
      hide Valid, Known, Chain, LevelOf, Served;
      var t := Chain(c.parent);
      assert Chain(c) == [c] + t;
      forall level ensures LevelOf([c] + t, level) <==> LevelOf(t, level) {
        LevelPast(c, t, level);
      }
      forall served ensures Served([c] + t, served) <==> Served(t, served) {
        ServedPast(c, t, served);
      }
    }

    static lemma LevelPast(c: Logger, t: seq<Logger>, level: int)
      requires c.ll == NOT_SET_LOG_LEVEL
      ensures LevelOf([c] + t, level) <==> LevelOf(t, level)
    {
      var s := [c] + t;
      if k :| 0 <= k < |s| && LevelAt(s, k, level) {
        assert k > 0;
        LevelAtPast(c, t, k - 1, level);
      }
      if k :| 0 <= k < |t| && LevelAt(t, k, level) {
        LevelAtPast(c, t, k, level);
      }
    }

    static lemma LevelAtPast(c: Logger, t: seq<Logger>, k: nat, level: int)
      requires c.ll == NOT_SET_LOG_LEVEL && k < |t|
      ensures LevelAt([c] + t, k + 1, level) <==> LevelAt(t, k, level)
    {
      var s := [c] + t;
      assert s[k + 1] == t[k];
      assert forall j :: 0 <= j < k ==> t[j] == s[j + 1];
      assert forall j :: 0 < j < k + 1 ==> s[j] == t[j - 1];
    }

    static lemma {:induction false} AppendersPast(c: Logger, t: seq<Logger>, k: nat)
      requires c.appenders == [] && k <= |t|
      ensures AppendersOf(([c] + t)[..k + 1]) == AppendersOf(t[..k])
    {
      var s := [c] + t;
      if k == 0 {
        assert s[..1] == [c] && [c][..0] == [] && t[..0] == [];
        assert AppendersOf([c]) == AppendersOf([c][..0]) + c.appenders;
      } else {
        AppendersPast(c, t, k - 1);
        AppendersNext(s, k);
        AppendersNext(t, k - 1);
        assert s[k] == t[k - 1];
      }
    }

    static lemma ServedUpTo(s: seq<Logger>, k: nat, served: seq<int>)
      requires 1 <= k <= |s| && served == AppendersOf(s[..k])
      requires (forall j :: 0 <= j < k - 1 ==> s[j].additive) && (k == |s| || !s[k - 1].additive)
      ensures Served(s, served)
    {
      assert ServedAt(s, k, served);
    }

    static lemma ServedPast(c: Logger, t: seq<Logger>, served: seq<int>)
      requires c.additive && c.appenders == [] && t != []
      ensures Served([c] + t, served) <==> Served(t, served)
    {
      hide AppendersOf;
      var s := [c] + t;
      if k :| 1 <= k <= |s| && ServedAt(s, k, served) {
        assert k > 1;
        AppendersPast(c, t, k - 1);
        AtPast(c, t, k - 1);
        ServedUpTo(t, k - 1, served);
      }
      if k :| 1 <= k <= |t| && ServedAt(t, k, served) {
        AppendersPast(c, t, k);
        AtPast(c, t, k);
        ServedUpTo(s, k + 1, served);
      }
    }

    static lemma AtPast(c: Logger, t: seq<Logger>, k: nat)
      requires c.additive && 1 <= k <= |t|
      ensures var s := [c] + t;
        && ((forall j :: 0 <= j < k ==> s[j].additive) <==> (forall j :: 0 <= j < k - 1 ==> t[j].additive))
        && s[k] == t[k - 1]
    {
      var s := [c] + t;
      assert forall j :: 0 <= j < k - 1 ==> t[j] == s[j + 1];
      assert forall j :: 0 < j < k ==> s[j] == t[j - 1];
    }

    /** The link of every logger of a hierarchy is the one the law demands. */
    lemma LinksObeyLaw(n: string)
      requires Valid() && n in created
      ensures n in loggerPtrs && loggerPtrs[n].parent != null && Law(created, n, Target(loggerPtrs[n].parent))
    {
      assert n in Links();
    }

    /** Any number of `getInstance` calls, in any order: the history is the requested names, each at its
        first occurrence; nothing but the links of the loggers that were there changes, and the others are new. */
    method GetInstances(names: seq<string>)
      requires Valid()
      modifies this`loggerPtrs, this`provisionNodes, this`created, loggerPtrs.Values`parent
      ensures Valid() && created == Requested(old(created), names)
      ensures Extends(old(loggerPtrs), loggerPtrs) && fresh(loggerPtrs.Values - old(loggerPtrs.Values))
    {
      hide Valid, Consistent, Chain, SameLevel, SameServed, Extends, Blank;
      ghost var table := loggerPtrs;
      ExtendsItself(table);
      for i := 0 to |names|
        invariant Valid() && created == Requested(old(created), names[..i])
        invariant fresh(loggerPtrs.Values - table.Values) && Extends(table, loggerPtrs)
      {
        ghost var before := loggerPtrs;
        NamesCreated();
        var logger := GetInstance(names[i]);
        assert names[..i + 1][..i] == names[..i];
        if loggerPtrs != before {
          ExtendsFurther(table, before, names[i], logger);
        }
      }
      assert names[..|names|] == names;
    }

    /** The loggers of `was` are still there, and the others are blank. */
    static ghost predicate Extends(was: map<string, Logger>, now: map<string, Logger>)
      reads now.Values`ll, now.Values`additive, now.Values`appenders
    {
      && (forall n :: n in was ==> n in now && now[n] == was[n])
      && (forall n :: n in now && n !in was ==> Blank(now[n]))
    }

    static lemma ExtendsItself(table: map<string, Logger>)
      ensures Extends(table, table)
    {
    }

    static lemma ExtendsFurther(was: map<string, Logger>, before: map<string, Logger>, name: string, logger: Logger)
      requires Extends(was, before) && name !in before && Blank(logger)
      ensures Extends(was, before[name := logger])
    {
      hide Blank;
    }

    lemma NamesCreated()
      requires Valid()
      ensures forall n :: n in loggerPtrs <==> n in created
    {
      Names(created, Links(), Provisions());
    }

    // ----- walking up the tree

    ghost predicate Known(c: Logger)
      reads this`loggerPtrs
    {
      c == root || IsLogger(c)
    }

    ghost function Rank(c: Logger): nat {
      if c == root then 0 else |c.name| + 1
    }

    /** Parent walks terminate: every step up leads to a shorter name or to the root. */
    lemma ParentIsHigher(c: Logger)
      requires Valid() && Known(c) && c != root
      ensures c.parent != null && Known(c.parent) && Rank(c.parent) < Rank(c)
    {
      NamesCreated();
      LinksObeyLaw(c.name);
    }

    /** The loggers from `c` up to the root. */
    ghost function Chain(c: Logger): (s: seq<Logger>)
      requires Valid() && Known(c)
      ensures s != [] && s[0] == c && s[|s| - 1] == root && (c != root ==> |s| > 1)
      reads this`loggerPtrs, this`provisionNodes, this`created, root, loggerPtrs.Values
      decreases Rank(c)
    {
      if c == root then [c] else (ParentIsHigher(c); [c] + Chain(c.parent))
    }

    /** One step of every upward walk. */
    lemma ChainUp(c: Logger)
      requires Valid() && Known(c)
      ensures Chain(c) != [] && Chain(c)[0] == c && root.ll != NOT_SET_LOG_LEVEL
      ensures c == root ==> c.parent == null && Chain(c) == [c]
      ensures c != root ==> c.parent != null && Known(c.parent) && Rank(c.parent) < Rank(c)
                            && Chain(c) == [c] + Chain(c.parent)
    {
      if c != root {
        ParentIsHigher(c);
      }
    }

    ghost predicate OnChain(c: Logger, a: string)
      requires Valid() && Known(c)
      reads this`loggerPtrs, this`provisionNodes, this`created, root, loggerPtrs.Values
    {
      exists j :: 0 <= j < |Chain(c)| - 1 && Chain(c)[j].name == a
    }

    /** With all links right, the chain passes through exactly the existing ancestors. */
    lemma {:induction false} ChainIsAncestors(c: Logger, a: string)
      requires Valid() && Known(c) && c != root && AllLinksRight(created)
      ensures OnChain(c, a) <==> a == c.name || (a in created && Above(a, c.name))
      decreases Rank(c)
    {
      var p := c.parent;
      ParentIsHigher(c);
      NamesCreated();
      LinksObeyLaw(c.name);
      assert Nearest(created, c.name, Target(p));
      assert Chain(c) == [c] + Chain(p);
      if p == root {
        assert Chain(c)[0] == c;
      } else {
        ChainIsAncestors(p, a);
        ChainStep(c, p, a);
        if Above(a, p.name) {
          AboveTransitive(a, p.name, c.name);
        }
        if a in created && Above(a, c.name) {
          AncestorsAreNested(a, p.name, c.name);
        }
      }
    }

    lemma ChainStep(c: Logger, p: Logger, a: string)
      requires Valid() && Known(c) && Known(p) && c != root && p != root && Chain(c) == [c] + Chain(p)
      ensures OnChain(c, a) <==> a == c.name || OnChain(p, a)
    {
      var s, t := Chain(c), Chain(p);
      assert s[0] == c && |t| > 1;
      if j :| 0 <= j < |t| - 1 && t[j].name == a {
        assert s[j + 1] == t[j];
      }
      if j :| 1 <= j < |s| - 1 && s[j].name == a {
        assert t[j - 1] == s[j];
      }
    }

    /** `level` is the level of the first logger of the chain that has one. */
    static ghost predicate LevelOf(chain: seq<Logger>, level: int)
      reads chain
    {
      exists k :: 0 <= k < |chain| && LevelAt(chain, k, level)
    }

    static ghost predicate LevelAt(chain: seq<Logger>, k: nat, level: int)
      requires k < |chain|
      reads chain
    {
      chain[k].ll == level != NOT_SET_LOG_LEVEL && forall j :: 0 <= j < k ==> chain[j].ll == NOT_SET_LOG_LEVEL
    }

    static lemma {:induction false} SomeLevel(chain: seq<Logger>, k: nat)
      requires k < |chain| && chain[|chain| - 1].ll != NOT_SET_LOG_LEVEL
      requires forall j :: 0 <= j < k ==> chain[j].ll == NOT_SET_LOG_LEVEL
      ensures exists level :: LevelOf(chain, level)
      decreases |chain| - k
    {
      if chain[k].ll != NOT_SET_LOG_LEVEL {
        assert LevelAt(chain, k, chain[k].ll) && LevelOf(chain, chain[k].ll);
      } else {
        SomeLevel(chain, k + 1);
      }
    }

    /** `getChainedLogLevel`: the level of the nearest logger that has one. Its error branch is never
        reached, since the root always has one. */
    method GetChainedLogLevel(logger: Logger) returns (level: int)
      requires Valid() && Known(logger)
      ensures LevelOf(Chain(logger), level)
    {
      WalkStarts(logger);
      level := LevelUpwards(logger, Chain(logger));
    }

    /** The loop of `getChainedLogLevel`, along the chain `s`. */
    method LevelUpwards(logger: Logger, ghost s: seq<Logger>) returns (level: int)
      requires Valid() && At(s, 0, logger)
      ensures LevelOf(s, level)
    {
      ghost var k := 0;
      assert Unset(s, k);
      hide Valid, Known, Left, At, LevelOf, Unset;
      var c: Logger? := logger;
      while c != null
        invariant c != null && At(s, k, c) && Unset(s, k)
        decreases Left(c)
      {
        LevelStep(s, k, c);
        if c.ll != NOT_SET_LOG_LEVEL {
          return c.ll;
        }
        c := c.parent;
        k := k + 1;
      }
      return NOT_SET_LOG_LEVEL;
    }

    static ghost predicate Unset(s: seq<Logger>, k: nat)
      reads s
    {
      k <= |s| && forall j :: 0 <= j < k ==> s[j].ll == NOT_SET_LOG_LEVEL
    }

    lemma LevelStep(s: seq<Logger>, k: nat, c: Logger)
      requires Valid() && At(s, k, c) && Unset(s, k)
      ensures c.ll != NOT_SET_LOG_LEVEL ==> LevelOf(s, c.ll)
      ensures c.ll == NOT_SET_LOG_LEVEL ==>
        c.parent != null && At(s, k + 1, c.parent) && Unset(s, k + 1) && Left(c.parent) < Left(c)
    {
      WalkGoesOn(s, k, c);
      ChainUp(c);
      assert c.ll != NOT_SET_LOG_LEVEL ==> LevelAt(s, k, c.ll);
    }

    /** `isEnabledFor` */
    method IsEnabledFor(logger: Logger, level: int) returns (enabled: bool)
      requires Valid() && Known(logger)
      ensures exists chained :: LevelOf(Chain(logger), chained) &&
                                (enabled <==> disableValue < level && chained <= level)
    {
      if disableValue >= level {
        SomeLevel(Chain(logger), 0);
        return false;
      }
      var chained := GetChainedLogLevel(logger);
      return level >= chained;
    }

    /** `setLogLevel`; the root refuses to lose its level. */
    method SetLogLevel(logger: Logger, level: int)
      requires Valid() && Known(logger)
      modifies logger`ll
      ensures Valid()
      ensures logger.ll == if logger == root && level == -1 then old(logger.ll) else level
    {
      if logger == root {
        if level != NOT_SET_LOG_LEVEL {
          logger.ll := level;
        }
      } else {
        logger.ll := level;
      }
    }

    static ghost function AppendersOf(s: seq<Logger>): seq<int>
      reads s
    {
      if s == [] then [] else AppendersOf(s[..|s| - 1]) + s[|s| - 1].appenders
    }

    /** The event goes to everything up to and including the first logger that is not additive. */
    static ghost predicate Served(chain: seq<Logger>, served: seq<int>)
      reads chain
    {
      exists k :: 1 <= k <= |chain| && ServedAt(chain, k, served)
    }

    static ghost predicate ServedAt(chain: seq<Logger>, k: nat, served: seq<int>)
      requires 1 <= k <= |chain|
      reads chain
    {
      && served == AppendersOf(chain[..k])
      && (forall j :: 0 <= j < k - 1 ==> chain[j].additive)
      && (k == |chain| || !chain[k - 1].additive)
    }

    /** A walk along the chain `s` has come to position `k`, at `c`, or past the root. */
    ghost predicate At(s: seq<Logger>, k: nat, c: Logger?)
      requires Valid()
      reads this`loggerPtrs, this`provisionNodes, this`created, root, loggerPtrs.Values
    {
      if c == null then k == |s| else Known(c) && k < |s| && Chain(c) == s[k..]
    }

    ghost function Left(c: Logger?): nat {
      if c == null then 0 else Rank(c) + 1
    }

    lemma WalkStarts(logger: Logger)
      requires Valid() && Known(logger)
      ensures At(Chain(logger), 0, logger) && Chain(logger)[..0] == []
      ensures Chain(logger)[|Chain(logger)| - 1].ll != NOT_SET_LOG_LEVEL
    {
      assert Chain(logger)[0..] == Chain(logger);
    }

    lemma WalkGoesOn(s: seq<Logger>, k: nat, c: Logger)
      requires Valid() && At(s, k, c)
      ensures k < |s| && s[k] == c && At(s, k + 1, c.parent) && Left(c.parent) < Left(c)
    {
      ChainBehind(s, k, c);
      ChainUp(c);
    }

    /** The loop of `callAppenders`, along the chain `s`. */
    method AppendUpwards(logger: Logger, ghost s: seq<Logger>) returns (served: seq<int>, writes: int)
      requires Valid() && At(s, 0, logger)
      ensures Served(s, served) && writes == |served|
    {
      served, writes := [], 0;
      ghost var k := 0;
      assert s[..0] == [] && Serving(s, k, served, writes);
      hide Valid, Known, Left, At, Served, Serving;
      var c: Logger? := logger;
      while c != null
        invariant c != null ==> At(s, k, c) && Serving(s, k, served, writes)
        invariant c == null ==> Served(s, served) && writes == |served|
        decreases Left(c)
      {
        ServeStep(s, k, c, served, writes);
        served, writes := served + c.appenders, writes + |c.appenders|;
        k := k + 1;
        if !c.additive {
          break;
        }
        c := c.parent;
      }
    }

    /** The loggers before position `k` have been served, and all of them pass the event on. */
    static ghost predicate Serving(s: seq<Logger>, k: nat, served: seq<int>, writes: int)
      reads s
    {
      k <= |s| && served == AppendersOf(s[..k]) && writes == |served| && forall j :: 0 <= j < k ==> s[j].additive
    }

    lemma ServeStep(s: seq<Logger>, k: nat, c: Logger, served: seq<int>, writes: int)
      requires Valid() && At(s, k, c) && Serving(s, k, served, writes)
      ensures var served', writes' := served + c.appenders, writes + |c.appenders|;
        if c.additive && c.parent != null then
          At(s, k + 1, c.parent) && Serving(s, k + 1, served', writes') && Left(c.parent) < Left(c)
        else
          Served(s, served') && writes' == |served'|
    {
      WalkGoesOn(s, k, c);
      AppendersNext(s, k);
      assert c.parent == null ==> k + 1 == |s|;
      if !c.additive || c.parent == null {
        ServedUpTo(s, k + 1, served + c.appenders);
      }
    }

    static lemma AppendersNext(s: seq<Logger>, k: nat)
      requires k < |s|
      ensures AppendersOf(s[..k + 1]) == AppendersOf(s[..k]) + s[k].appenders
    {
      assert s[..k + 1][..k] == s[..k];
    }

    /** Where the walk stands in the chain it follows. */
    lemma ChainBehind(s: seq<Logger>, k: nat, c: Logger)
      requires Valid() && Known(c) && k < |s| && Chain(c) == s[k..]
      ensures s[k] == c
      ensures if c == root then k + 1 == |s| else
        c.parent != null && Known(c.parent) && k + 1 < |s| && Chain(c.parent) == s[k + 1..]
    {
      ChainUp(c);
      hide Valid, Known, Rank;
      assert s[k..][0] == s[k];
      if c == root {
        assert |s[k..]| == 1;
      } else {
        assert Chain(c.parent) == ([c] + Chain(c.parent))[1..] == s[k..][1..] == s[k + 1..];
      }
    }

    /** `callAppenders`: when nothing was served anywhere, that is reported once. */
    method CallAppenders(logger: Logger) returns (served: seq<int>, warned: bool)
      requires Valid() && Known(logger)
      modifies this`emittedNoAppenderWarning
      ensures Valid() && Served(Chain(logger), served)
      ensures warned <==> served == [] && !old(emittedNoAppenderWarning)
      ensures emittedNoAppenderWarning == (old(emittedNoAppenderWarning) || warned)
    {
      WalkStarts(logger);
      ghost var s := Chain(logger);
      hide Served, Valid, Chain, At;
      var writes;
      served, writes := AppendUpwards(logger, s);
      warned := !emittedNoAppenderWarning && writes == 0;
      if warned {
        emittedNoAppenderWarning := true;
      }
    }
  }
}
