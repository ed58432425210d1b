/** The list of addrinfo results that the program under test has still to free. */
module NetworkDns {
  // ------------------------------------------------------------------ the list as a value

  /** The list without its first x; the others keep their order. */
  function RemoveFirst(s: seq<int>, x: int): seq<int> {
    if s == [] then []
    else if s[0] == x then s[1..]
    else [s[0]] + RemoveFirst(s[1..], x)
  }

  /** Exactly one occurrence goes, if there is one, and nothing else. */
  lemma {:induction false} RemoveFirstIsMinusOne(s: seq<int>, x: int)
    ensures multiset(RemoveFirst(s, x)) == multiset(s) - multiset{x}
    ensures x !in s ==> RemoveFirst(s, x) == s
  {
    if s != [] {
      assert s == [s[0]] + s[1..];
      RemoveFirstIsMinusOne(s[1..], x);
    }
  }

  /** Cutting out the element at the first position of x. */
  lemma {:induction false} RemoveFirstAt(s: seq<int>, x: int, i: nat)
    requires i < |s| && s[i] == x && x !in s[..i]
    ensures RemoveFirst(s, x) == s[..i] + s[i + 1..]
  {
    if i > 0 {
      assert s[0] in s[..i] && s[1..][..i - 1] == s[..i][1..];
      RemoveFirstAt(s[1..], x, i - 1);
    }
  }

  // ------------------------------------------------------------------ the list in memory

  class AddrNode {
    var addrList: int
    var next: AddrNode?

    constructor (addrList: int, next: AddrNode?)
      ensures this.addrList == addrList && this.next == next
    {
      this.addrList, this.next := addrList, next;
    }
  }

  class AddrInfoStats {
    /** stats.getaddrinfo.addrinfo_list */
    var head: AddrNode?
    /** check_freeaddrinfo */
    var check: bool
    /** stats.freeaddrinfo.status */
    var status: int
    ghost var nodes: seq<AddrNode>
    ghost var repr: set<AddrNode>
    /** The addresses on the list, the last recorded one first. */
    ghost var contents: seq<int>

    constructor (check: bool)
      ensures Valid() && contents == [] && this.check == check && status == 0 && repr == {}
    {
      head, nodes, repr, contents, status := null, [], {}, [], 0;
      this.check := check;
    }

    /** The node after the i-th. */
    ghost function After(i: nat): AddrNode?
      reads `nodes
    {
      if i + 1 < |nodes| then nodes[i + 1] else null
    }

    /** The list is the chain of nodes: acyclic, ended by NULL, holding contents in order. */
    ghost predicate Valid()
      reads this, repr
    {
      && |nodes| == |contents|
      && head == (if nodes == [] then null else nodes[0])
      && (forall i :: 0 <= i < |nodes| ==>
            nodes[i] in repr && nodes[i].next == After(i) && nodes[i].addrList == contents[i])
      && (forall i, j :: 0 <= i < j < |nodes| ==> nodes[i] != nodes[j])
    }

    /** add_result; when malloc fails the address is not recorded. */
    method AddResult(res: int, outOfMemory: bool)
      requires Valid()
      modifies `head, `nodes, `repr, `contents
      ensures Valid() && fresh(repr - old(repr))
      ensures contents == if outOfMemory then old(contents) else [res] + old(contents)
    {
      if outOfMemory {
        return;
      }
      var node := new AddrNode(res, head);
      head := node;
      nodes, repr, contents := [node] + nodes, repr + {node}, [res] + contents;
    }

    /** remove_result: unlink the first node that holds res. */
    method RemoveResult(res: int) returns (r: int)
      requires Valid()
      modifies `head, `nodes, `contents, repr
      ensures Valid()
      ensures contents == RemoveFirst(old(contents), res)
      ensures r == if res in old(contents) then 0 else -1
    {
      if head == null {
        return -1;
      }
      if head.addrList == res {
        head := head.next;
        nodes, contents := nodes[1..], contents[1..];
        return 0;
      }
      r := RemoveLater(res);
    }

    /** The loop of remove_result, when the first node does not hold res. */
    method RemoveLater(res: int) returns (r: int)
      requires Valid() && head != null && contents[0] != res
      modifies `nodes, `contents, repr
      ensures Valid()
      ensures contents == RemoveFirst(old(contents), res)
      ensures r == if res in old(contents) then 0 else -1
    {
      var runner := head;
      ghost var i: nat := 0;
      while runner.next != null
        invariant Valid() && nodes == old(nodes) && contents == old(contents)
        invariant i < |nodes| && runner == nodes[i]
        invariant res !in contents[..i + 1]
        decreases |nodes| - i
      {
        if runner.next.addrList == res {
          RemoveFirstAt(contents, res, i + 1);
          Unlink(runner, i);
          return 0;
        }
        runner := runner.next;
        i := i + 1;
      }
      assert contents[..i + 1] == contents;
      RemoveFirstIsMinusOne(contents, res);
      r := -1;
    }

    /** runner->next = runner->next->next, where runner is the i-th node. */
    method Unlink(runner: AddrNode, ghost i: nat)
      requires Valid() && i + 1 < |nodes| && runner == nodes[i]
      modifies `nodes, `contents, runner`next
      ensures Valid()
      ensures contents == old(contents)[..i + 1] + old(contents)[i + 2..]
    {
      ghost var was, what := nodes, contents;
      runner.next := runner.next.next;
      nodes := was[..i + 1] + was[i + 2..];
      contents := what[..i + 1] + what[i + 2..];
      forall j | 0 <= j < |nodes|
        ensures nodes[j] in repr && nodes[j].next == After(j) && nodes[j].addrList == contents[j]
      {
        ghost var at := if j <= i then j else j + 1;
        assert nodes[j] == was[at] && contents[j] == what[at];
        assert was[at] in repr && old(was[at].addrList) == what[at];
        if j != i {
          assert was[at] != runner;
          assert old(was[at].next) == old(After(at));
        }
      }
      assert forall j, k :: 0 <= j < k < |nodes| ==> nodes[j] != nodes[k];
    }

    /** The bookkeeping of __wrap_freeaddrinfo. */
    method FreeAddrInfo(res: int)
      requires Valid()
      modifies `head, `nodes, `contents, `status, repr
      ensures Valid()
      ensures status == if !check || res in old(contents) then 0 else 1
      ensures contents == if check then RemoveFirst(old(contents), res) else old(contents)
    {
      if check {
        var r := RemoveResult(res);
        if r == 0 {
          status := 0;
        } else {
          status := 1;
        }
      } else {
        status := 0;
      }
    }
  }

  // ------------------------------------------------------------------ whole runs

  datatype Event = Recorded(res: int) | Freed(res: int)

  /** The list after one event. */
  function After(list: seq<int>, event: Event): seq<int> {
    match event
    case Recorded(res) => [res] + list
    case Freed(res) => RemoveFirst(list, res)
  }

  /** The list after a run of recordings and frees, with checking on. */
  function Outstanding(events: seq<Event>): seq<int> {
    if events == [] then []
    else
      After(Outstanding(events[..|events| - 1]), events[|events| - 1])
  }

  /** The status that a free of res reports after a run. */
  function Status(events: seq<Event>, res: int): int {
    if res in Outstanding(events) then 0 else 1
  }

  function TimesRecorded(events: seq<Event>, res: int): nat {
    if events == [] then 0
    else TimesRecorded(events[..|events| - 1], res) + if events[|events| - 1] == Recorded(res) then 1 else 0
  }

  /** How often a free of res has reported success. */
  function TimesRemoved(events: seq<Event>, res: int): nat {
    if events == [] then 0
    else
      var before := events[..|events| - 1];
      TimesRemoved(before, res) + if events[|events| - 1] == Freed(res) && Status(before, res) == 0 then 1 else 0
  }

  lemma {:induction false} OutstandingCount(events: seq<Event>, res: int)
    ensures multiset(Outstanding(events))[res] == TimesRecorded(events, res) - TimesRemoved(events, res)
  {
    if events != [] {
      var before, last := events[..|events| - 1], events[|events| - 1];
      OutstandingCount(before, res);
      if last.Freed? {
        RemoveFirstIsMinusOne(Outstanding(before), last.res);
      }
    }
  }

  /** res was recorded more often than a free of it has reported success. */
  ghost predicate Owed(events: seq<Event>, res: int) {
    TimesRecorded(events, res) > TimesRemoved(events, res)
  }

  /** Over any interleaving, freeing res is reported as valid iff it was recorded more often than removed. */
  lemma StatusIsBalance(events: seq<Event>, res: int)
    ensures Status(events, res) == 0 <==> Owed(events, res)
    ensures TimesRecorded(events, res) >= TimesRemoved(events, res)
  {
    OutstandingCount(events, res);
    assert res in Outstanding(events) <==> multiset(Outstanding(events))[res] > 0;
  }

  /** One event on the list in memory. */
  method HandleEvent(stats: AddrInfoStats, event: Event)
    requires stats.Valid() && stats.check
    modifies stats, stats.repr
    ensures stats.Valid() && stats.check && fresh(stats.repr - old(stats.repr))
    ensures stats.contents == After(old(stats.contents), event)
    ensures event.Freed? ==> stats.status == if event.res in old(stats.contents) then 0 else 1
  {
    match event {
      case Recorded(res) => stats.AddResult(res, false);
      case Freed(res) => stats.FreeAddrInfo(res);
    }
  }

  /** Each status is the one that the list of the events before it gives. */
  ghost predicate Statuses(events: seq<Event>, statuses: seq<int>) {
    |statuses| <= |events|
    && forall i :: 0 <= i < |statuses| && events[i].Freed? ==> statuses[i] == Status(events[..i], events[i].res)
  }

  /** The list in memory under a run of recordings and frees, and the status after each of them. */
  method RunEvents(stats: AddrInfoStats, events: seq<Event>) returns (statuses: seq<int>)
    requires stats.Valid() && stats.contents == [] && stats.check
    modifies stats, stats.repr
    ensures stats.Valid() && stats.contents == Outstanding(events)
    ensures |statuses| == |events|
    ensures forall i :: 0 <= i < |events| && events[i].Freed? ==>
              (statuses[i] == 0 <==> Owed(events[..i], events[i].res))
  {
    statuses := [];
    for i := 0 to |events|
      invariant stats.Valid() && stats.check && fresh(stats.repr - old(stats.repr))
      invariant stats.contents == Outstanding(events[..i])
      invariant |statuses| == i && Statuses(events, statuses)
    {
      assert events[..i + 1][..i] == events[..i];
      HandleEvent(stats, events[i]);
      statuses := statuses + [stats.status];
    }
    assert events[..|events|] == events;
    StatusesAreBalances(events, statuses);
  }

  lemma StatusesAreBalances(events: seq<Event>, statuses: seq<int>)
    requires |statuses| == |events| && Statuses(events, statuses)
    ensures forall i :: 0 <= i < |events| && events[i].Freed? ==>
              (statuses[i] == 0 <==> Owed(events[..i], events[i].res))
  {
    forall i | 0 <= i < |events| && events[i].Freed?
      ensures statuses[i] == 0 <==> Owed(events[..i], events[i].res)
    {
      StatusIsBalance(events[..i], events[i].res);
    }
  }
}
