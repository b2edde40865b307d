/** function.c: the tracepoints of a process, keyed by entry address. */
module FunctionTable {
  import opened Words

  datatype Tracepoint = Tracepoint(entry: Word64, name: seq<Byte>)

  type Entries = map<Word64, seq<Byte>>

  /** A list of function_add calls, in order. */
  function Record(t: Entries, added: seq<Tracepoint>): Entries
    decreases |added|
  {
    if added == [] then t else Record(t[added[0].entry := added[0].name], added[1..])
  }

  class Functions {
    var entries: Entries
    /** Every function_add call so far. */
    ghost var calls: seq<Tracepoint>

    ghost predicate Valid()
      reads this
    {
      entries == Record(map[], calls)
    }

    constructor ()
      ensures Valid() && calls == []
    {
      entries, calls := map[], [];
    }

    /** function_add */
    method Add(entry: Word64, name: seq<Byte>)
      requires Valid()
      modifies this
      ensures Valid() && calls == old(calls) + [Tracepoint(entry, name)]
    {
      RecordConcat(map[], calls, [Tracepoint(entry, name)]);
      entries := entries[entry := name];
      calls := calls + [Tracepoint(entry, name)];
    }
  }

  lemma {:induction false} RecordConcat(t: Entries, a: seq<Tracepoint>, b: seq<Tracepoint>)
    ensures Record(t, a + b) == Record(Record(t, a), b)
    decreases |a|
  {
    if a == [] {
      assert a + b == b;
    } else {
      assert (a + b)[1..] == a[1..] + b && (a + b)[0] == a[0];
      RecordConcat(t[a[0].entry := a[0].name], a[1..], b);
    }
  }

  /** Entries without a call keep what they had. */
  lemma {:induction false} RecordTargets(t: Entries, added: seq<Tracepoint>)
    ensures Record(t, added).Keys == t.Keys + Targets(added)
    ensures forall e :: e in t && e !in Targets(added) ==> Record(t, added)[e] == t[e]
    decreases |added|
  {
    if added != [] {
      RecordTargets(t[added[0].entry := added[0].name], added[1..]);
      assert Targets(added) == {added[0].entry} + Targets(added[1..]) by {
        assert forall i :: 0 < i < |added| ==> added[i] == added[1..][i - 1];
        assert forall i :: 0 <= i < |added| - 1 ==> added[1..][i] == added[i + 1];
      }
    }
  }

  /** Whatever an entry is called comes from the old table or from one of the calls. */
  lemma {:induction false} RecordComesFrom(t: Entries, added: seq<Tracepoint>, entry: Word64)
    requires entry in Record(t, added)
    ensures (entry in t && Record(t, added)[entry] == t[entry]) || Tracepoint(entry, Record(t, added)[entry]) in added
    decreases |added|
  {
    if added != [] {
      RecordComesFrom(t[added[0].entry := added[0].name], added[1..], entry);
      assert added[0] in added && forall x :: x in added[1..] ==> x in added;
    }
  }

  /** The last call for an entry wins. */
  lemma RecordLastWins(t: Entries, added: seq<Tracepoint>, i: nat)
    requires i < |added| && forall j :: i < j < |added| ==> added[j].entry != added[i].entry
    ensures added[i].entry in Record(t, added) && Record(t, added)[added[i].entry] == added[i].name
  {
    var a, b, e := added[..i + 1], added[i + 1..], added[i].entry;
    RecordConcat(t, a, b);
    assert added == a + b && a == added[..i] + [added[i]];
    RecordConcat(t, added[..i], [added[i]]);
    RecordTargets(Record(t, a), b);
    assert e !in Targets(b) by {
      assert forall j :: 0 <= j < |b| ==> b[j] == added[i + 1 + j];
    }
  }

  /** Recording depends on the table it starts from only where nothing is recorded. */
  lemma {:induction false} RecordCongruent(t: Entries, t': Entries, added: seq<Tracepoint>)
    requires forall e :: e !in Targets(added) ==> (e in t <==> e in t') && (e in t ==> t'[e] == t[e])
    ensures Record(t, added) == Record(t', added)
    decreases |added|
  {
    if added == [] {
      assert t == t';
    } else {
      RecordCongruent(t[added[0].entry := added[0].name], t'[added[0].entry := added[0].name], added[1..]);
    }
  }

  function Targets(added: seq<Tracepoint>): set<Word64> {
    set i | 0 <= i < |added| :: added[i].entry
  }

  /** A prefix recorded earlier leaves no trace once the whole list is recorded, whatever came between. */
  lemma PrefixIsAbsorbed(t: Entries, prefix: seq<Tracepoint>, between: seq<Tracepoint>, all: seq<Tracepoint>)
    requires prefix <= all
    ensures Record(Record(Record(t, prefix), between), all) == Record(Record(t, between), all)
  {
    var t1, t2 := Record(Record(t, prefix), between), Record(t, between);
    RecordTargets(t, prefix);
    RecordTargets(Record(t, prefix), between);
    RecordTargets(t, between);
    assert Targets(prefix) <= Targets(all) by {
      assert forall i :: 0 <= i < |prefix| ==> prefix[i] == all[i];
    }
    forall e | e !in Targets(all)
      ensures (e in t1 <==> e in t2) && (e in t1 ==> t2[e] == t1[e])
    {
      BetweenSame(t, Record(t, prefix), between, e);
    }
    RecordCongruent(t1, t2, all);
  }

  lemma {:induction false} BetweenSame(t: Entries, t': Entries, between: seq<Tracepoint>, e: Word64)
    requires (e in t <==> e in t') && (e in t ==> t'[e] == t[e])
    ensures e in Record(t, between) <==> e in Record(t', between)
    ensures e in Record(t, between) ==> Record(t', between)[e] == Record(t, between)[e]
    decreases |between|
  {
    if between != [] {
      BetweenSame(t[between[0].entry := between[0].name], t'[between[0].entry := between[0].name], between[1..], e);
    }
  }
}
