/** The metadata of a running test: a linked queue of messages, an array of tags, and the printing of the record. */
module TestMetadata {
  import opened ByteOrder
  import opened Text
  import opened Records

  const TAGS_NB_MAX: nat := 20
  const TAGS_LEN_MAX: nat := 30

  const EINVAL := 22
  const ENOMEM := 12

  // ------------------------------------------------------------------ the slots of the tags

  /** What %s prints for a slot: a slot that is full has no terminator, so printing runs on into the next one. */
  function RunOn(slots: seq<string>, j: nat): string
    requires j < |slots|
    decreases |slots| - j
  {
    if |slots[j]| < TAGS_LEN_MAX || j + 1 == |slots| then slots[j] else slots[j] + RunOn(slots, j + 1)
  }

  /** The tags that are printed for slots j to n. */
  function Printed(slots: seq<string>, j: nat, n: nat): (tags: seq<string>)
    requires j <= n <= |slots|
    ensures |tags| == n - j
    decreases n - j
  {
    if j == n then [] else [RunOn(slots, j)] + Printed(slots, j + 1, n)
  }

  ghost predicate TagSlots(slots: seq<string>, n: nat) {
    && n <= |slots|
    && (forall i :: 0 <= i < |slots| ==> TagText(slots[i]) && |slots[i]| <= TAGS_LEN_MAX)
    && (forall i :: n <= i < |slots| ==> slots[i] == "")
  }

  lemma {:induction false} RunOnText(slots: seq<string>, n: nat, j: nat)
    requires TagSlots(slots, n) && j < |slots|
    ensures TagText(RunOn(slots, j))
    ensures RunOn(slots, j) == "" <==> slots[j] == ""
    decreases |slots| - j
  {
    if j + 1 < |slots| {
      RunOnText(slots, n, j + 1);
    }
  }

  lemma {:induction false} PrintedText(slots: seq<string>, j: nat, n: nat)
    requires TagSlots(slots, n) && j <= n
    ensures forall t :: t in Printed(slots, j, n) ==> TagText(t)
    decreases n - j
  {
    if j < n {
      RunOnText(slots, n, j);
      PrintedText(slots, j + 1, n);
    }
  }

  /** From slot j on, no full slot is followed by a tag. */
  ghost predicate Separate(slots: seq<string>, j: nat, n: nat) {
    forall i :: j <= i < n <= |slots| && i + 1 < n && |slots[i]| == TAGS_LEN_MAX ==> slots[i + 1] == ""
  }

  lemma ConsEqual(a: string, s: seq<string>, b: string, t: seq<string>)
    ensures [a] + s == [b] + t <==> a == b && s == t
  {
    assert ([a] + s)[0] == a && ([a] + s)[1..] == s;
    assert ([b] + t)[0] == b && ([b] + t)[1..] == t;
  }

  /** The printed tags are the stored ones iff no tag that fills its slot is followed by another. */
  lemma {:induction false} PrintedExactly(slots: seq<string>, j: nat, n: nat)
    requires TagSlots(slots, n) && j <= n
    ensures NonEmpty(Printed(slots, j, n)) == NonEmpty(slots[j..n]) <==> Separate(slots, j, n)
    decreases n - j
  {
    if j < n {
      PrintedExactly(slots, j + 1, n);
      RunOnText(slots, n, j);
      assert slots[j..n][0] == slots[j] && slots[j..n][1..] == slots[j + 1..n];
      if j + 1 < |slots| {
        RunOnText(slots, n, j + 1);
        assert RunOn(slots, j) == slots[j] <==> |slots[j]| < TAGS_LEN_MAX || slots[j + 1] == "";
      }
      ConsEqual(RunOn(slots, j), NonEmpty(Printed(slots, j + 1, n)), slots[j], NonEmpty(slots[j + 1..n]));
    }
  }

  // ------------------------------------------------------------------ the metadata

  class InfoMsg {
    var msg: string
    var next: InfoMsg?

    constructor (msg: string)
      ensures this.msg == msg && next == null
    {
      this.msg, next := msg, null;
    }
  }

  class Metadata {
    var fifoIn: InfoMsg?
    var fifoOut: InfoMsg?
    var problem: string
    var descr: string
    var weight: uint32
    var nbTags: nat
    /** The slots of the tags, each up to its terminator or its end. */
    const tags: array<string>
    var err: int
    ghost var nodes: seq<InfoMsg>
    ghost var repr: set<InfoMsg>
    /** The messages of the queue, the first pushed one first. */
    ghost var msgs: seq<string>

    constructor ()
      ensures Valid() && msgs == [] && Tags() == [] && err == 0 && repr == {} && fresh(tags)
      ensures problem == "" && descr == "" && weight == 0
    {
      fifoIn, fifoOut, problem, descr, weight, nbTags, err := null, null, "", "", 0, 0, 0;
      tags := new string[TAGS_NB_MAX](_ => "");
      nodes, repr, msgs := [], {}, [];
    }

    ghost function After(i: nat): InfoMsg?
      reads `nodes
    {
      if i + 1 < |nodes| then nodes[i + 1] else null
    }

    /** The queue runs from fifoIn along the nodes to fifoOut. */
    ghost predicate Queue()
      reads `fifoIn, `fifoOut, `nodes, `repr, `msgs, repr
    {
      && |nodes| == |msgs|
      && fifoIn == (if nodes == [] then null else nodes[0])
      && fifoOut == (if nodes == [] then null else nodes[|nodes| - 1])
      && (forall i :: 0 <= i < |nodes| ==> nodes[i] in repr && nodes[i].next == After(i) && nodes[i].msg == msgs[i])
      && (forall i, j :: 0 <= i < j < |nodes| ==> nodes[i] != nodes[j])
    }

    ghost predicate Valid()
      reads this, repr, tags
    {
      && Queue()
      && tags.Length == TAGS_NB_MAX && TagSlots(tags[..], nbTags)
      && (forall m :: m in msgs ==> '#' !in m && '\n' !in m)
    }

    ghost function Tags(): seq<string>
      requires nbTags <= tags.Length
      reads this, tags
    {
      tags[..nbTags]
    }

    /** The record that is printed if the test ends now. */
    ghost function Current(passed: bool): Record
      requires nbTags <= tags.Length
      reads this, tags
    {
      Record(problem, passed, descr, weight, Printed(tags[..], 0, nbTags), msgs)
    }

    /** push_info_msg: queue the message, unless it would break the format of the record or memory runs out. */
    method PushInfoMsg(msg: string, outOfMemory: bool)
      requires Valid()
      modifies `fifoIn, `fifoOut, `err, `nodes, `repr, `msgs, repr
      ensures Valid() && fresh(repr - old(repr))
      ensures if '#' in msg || '\n' in msg then err == 22 && msgs == old(msgs)
              else if outOfMemory then err == 12 && msgs == old(msgs)
              else err == old(err) && msgs == old(msgs) + [msg]
    {
      if '#' in msg || '\n' in msg {
        err := EINVAL;
        return;
      }
      if outOfMemory {
        err := ENOMEM;
        return;
      }
      Enqueue(msg);
    }

    /** Append to the queue. */
    method Enqueue(msg: string)
      requires Queue()
      modifies `fifoIn, `fifoOut, `nodes, `repr, `msgs, repr
      ensures Queue() && fresh(repr - old(repr)) && msgs == old(msgs) + [msg]
    {
      var item := new InfoMsg(msg);
      if fifoIn == null && fifoOut == null {
        fifoIn := item;
        fifoOut := item;
      } else {
        fifoOut.next := item;
        fifoOut := item;
      }
      nodes, repr, msgs := nodes + [item], repr + {item}, msgs + [msg];
    }

    /** The scan of set_tag, which looks at the first 30 characters. */
    method OnlyTagChars(tag: string) returns (allowed: bool)
      ensures allowed <==> TagText(Start(tag))
    {
      var i := 0;
      while i < |tag| && i < TAGS_LEN_MAX
        invariant i <= |Start(tag)|
        invariant forall c :: c in tag[..i] ==> TagChar(c)
      {
        assert tag[i] == Start(tag)[i];
        if !TagChar(tag[i]) {
          return false;
        }
        i := i + 1;
      }
      assert tag[..i] == Start(tag);
      allowed := true;
    }

    /** set_tag: the first 30 characters are kept, unless one of them is not allowed or twenty tags are set. */
    method SetTag(tag: string)
      requires Valid()
      modifies `nbTags, tags
      ensures Valid()
      ensures Tags() == if TagText(Start(tag)) && |old(Tags())| < 20 then old(Tags()) + [Start(tag)] else old(Tags())
    {
      var allowed := OnlyTagChars(tag);
      if !allowed {
        return;
      }
      if nbTags < TAGS_NB_MAX {
        ghost var before := Tags();
        tags[nbTags] := Start(tag);
        nbTags := nbTags + 1;
        assert tags[..nbTags] == before + [Start(tag)];
      }
    }

    /** The tags, with commas between them. */
    method PrintTags(out: string) returns (out': string)
      requires nbTags <= tags.Length
      ensures out' == out + Join(Printed(tags[..], 0, nbTags), ',')
    {
      out' := out;
      var j := 0;
      while j < nbTags
        invariant j <= nbTags
        invariant out' + Join(Printed(tags[..], j, nbTags), ',') == out + Join(Printed(tags[..], 0, nbTags), ',')
      {
        assert Printed(tags[..], j, nbTags)[1..] == Printed(tags[..], j + 1, nbTags);
        out' := out' + RunOn(tags[..], j);
        if j != nbTags - 1 {
          out' := out' + ",";
        }
        j := j + 1;
      }
    }

    /** The loop that prints and frees the queue. */
    method DrainQueue(out: string) returns (out': string)
      requires Queue()
      modifies `fifoIn, `fifoOut, `nodes, `msgs
      ensures Queue() && msgs == [] && fifoIn == null && fifoOut == null
      ensures out' == out + Messages(old(msgs))
    {
      out' := out;
      ghost var n := 0;
      while fifoIn != null
        invariant n <= |nodes| && nodes == old(nodes) && msgs == old(msgs)
        invariant fifoIn == if n < |nodes| then nodes[n] else null
        invariant out' + Messages(msgs[n..]) == out + Messages(msgs)
        decreases |nodes| - n
      {
        assert msgs[n..][1..] == msgs[n + 1..];
        var head := fifoIn;
        out' := out' + "#" + head.msg;
        fifoIn := head.next;
        n := n + 1;
      }
      fifoOut := null;
      nodes, msgs := [], [];
    }

    /**
     The record printing of run_tests: the line of the current record, and an empty queue afterwards. When problem and
     description are single fields and every message is one line, run.py reads back exactly the record: what else
     could break the line was kept out by set_tag and push_info_msg. Its tags are those that were set iff none of 30
     characters is followed by another.
     */
    method PrintRecord(passed: bool) returns (out: string)
      requires Valid()
      modifies `fifoIn, `fifoOut, `nodes, `msgs
      ensures Valid() && msgs == []
      ensures out == Line(old(Current(passed))) + "\n"
      ensures old(Readable()) ==> && ParseFile(out).Some? && |ParseFile(out).value| == 1
                                  && ReadBack(old(Current(passed)), ParseFile(out).value[0])
      ensures NonEmpty(old(Current(passed)).tags) == NonEmpty(old(Tags())) <==> Separate(tags[..], 0, nbTags)
    {
      ghost var record := Current(passed);
      PrintedText(tags[..], 0, nbTags);
      PrintedExactly(tags[..], 0, nbTags);
      assert tags[..][0..nbTags] == Tags();
      if Readable() {
        assert Printable(record);
        OneRecordFile(record);
      }
      out := PrintLine(passed);
    }

    /** What set_tag and push_info_msg do not see to. */
    ghost predicate Readable()
      reads this
    {
      OneField(problem) && OneField(descr) && forall m :: m in msgs ==> OneLine(m)
    }

    method PrintLine(passed: bool) returns (out: string)
      requires Valid()
      modifies `fifoIn, `fifoOut, `nodes, `msgs
      ensures Valid() && msgs == []
      ensures out == Line(old(Current(passed))) + "\n"
    {
      if !passed {
        out := problem + "#FAIL#" + descr + "#" + PrintInt(Int32(weight)) + "#";
      } else {
        out := problem + "#SUCCESS#" + descr + "#" + PrintInt(Int32(weight)) + "#";
      }
      HeaderText(Current(passed));
      out := PrintTags(out);
      out := DrainQueue(out);
      out := out + "\n";
    }
  }

  /** Two tags on new metadata. */
  method SetTwoTags(a: string, b: string) returns (m: Metadata)
    requires TagText(a) && TagText(b) && |a| <= TAGS_LEN_MAX && |b| <= TAGS_LEN_MAX
    ensures m.nbTags == 2 && TagSlots(m.tags[..], 2) && m.tags[..][..2] == [a, b]
  {
    m := new Metadata();
    m.SetTag(a);
    m.SetTag(b);
    assert m.tags[..][..2] == m.Tags();
  }

  /** A tag that fills its slot: what is set after it is printed twice, and read back as a part of it. */
  method FullTagRunsOn() returns (out: string)
    ensures out == LongTag() + "b,b"
    ensures NonEmpty(Split(out, ',')) == [LongTag() + "b", "b"]
  {
    LongTagText();
    var m := SetTwoTags(LongTag(), "b");
    RunsOnOnce(m.tags[..], LongTag(), "b");
    out := m.PrintTags("");
    PrintedTwo(LongTag());
  }

  lemma PrintedTwo(tag: string)
    requires Free(tag + "b", ',')
    ensures "" + Join([tag + "b", "b"], ',') == tag + "b,b"
    ensures NonEmpty(Split(tag + "b,b", ',')) == [tag + "b", "b"]
  {
    SplitTwo(tag + "b", "b");
    assert tag + "b" + "," + "b" == tag + "b,b";
  }

  lemma RunsOnOnce(slots: seq<string>, full: string, next: string)
    requires TagSlots(slots, 2) && slots[..2] == [full, next] && |full| == TAGS_LEN_MAX && |next| < TAGS_LEN_MAX
    ensures Printed(slots, 0, 2) == [full + next, next]
  {
    assert slots[0] == slots[..2][0] && slots[1] == slots[..2][1];
    assert RunOn(slots, 1) == next;
  }

  lemma SplitTwo(a: string, b: string)
    requires Free(a, ',') && Free(b, ',') && a != "" && b != ""
    ensures Join([a, b], ',') == a + "," + b
    ensures NonEmpty(Split(a + "," + b, ',')) == [a, b]
  {
    assert [a, b][1..] == [b];
    assert Join([b], ',') == b;
    SplitJoin([a, b], ',');
    assert NonEmpty([b]) == [b] by {
      assert [b][1..] == [];
    }
  }

  function LongTag(): (tag: string)
    ensures |tag| == TAGS_LEN_MAX
  {
    seq(TAGS_LEN_MAX, _ => 'a')
  }

  lemma LongTagText()
    ensures TagText(LongTag()) && Start(LongTag()) == LongTag() && Free(LongTag() + "b", ',')
  {
    assert Start(LongTag()) == LongTag();
  }

  /** The first 30 characters, or all if there are no more. */
  lemma StartMeans(tag: string)
    ensures Start(tag) <= tag && |Start(tag)| == if |tag| < 30 then |tag| else 30
  {
  }

  /** What fits the slot of a tag. */
  function Start(tag: string): string {
    if |tag| <= TAGS_LEN_MAX then tag else tag[..TAGS_LEN_MAX]
  }

  lemma HeaderText(r: Record)
    ensures Header(r) == r.problem + (if r.passed then "#SUCCESS#" else "#FAIL#") + r.descr
                         + "#" + PrintInt(Int32(r.weight)) + "#"
  {
    assert r.problem + "#" + Code(r.passed) + "#" == r.problem + (if r.passed then "#SUCCESS#" else "#FAIL#");
  }
}
