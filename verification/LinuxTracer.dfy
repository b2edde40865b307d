/** The entry points of introspection.c, on the process objects. */
module LinuxTracer {
  import opened Words
  import opened GuestMemory
  import opened SearchTree
  import opened MappingStore
  import opened StoreModules
  import opened LinuxProcess
  import opened LinuxObjects
  import opened Plugin

  /** The events of context c. */
  ghost function Of(os: seq<Occurrence>, c: Word64): History {
    Only(os, |os|, c)
  }

  lemma {:induction false} OnlyOfPrefix(os: seq<Occurrence>, o: Occurrence, n: nat, c: Word64)
    requires n <= |os|
    ensures Only(os + [o], n, c) == Only(os, n, c)
    decreases n
  {
    if n > 0 {
      OnlyOfPrefix(os, o, n - 1, c);
    }
  }

  lemma OfNext(os: seq<Occurrence>, o: Occurrence, c: Word64)
    ensures Of(os + [o], c) == if c == o.ctx then Of(os, c) + [o.event] else Of(os, c)
  {
    OnlyOfPrefix(os, o, |os|, c);
    assert (os + [o])[|os|] == o;
  }

  /** The plugin: processes are created on demand and updated in place, each through objects of its own. */
  class Tracer {
    var processes: map<Word64, Process>
    /** The objects of each process. */
    ghost var owned: map<Word64, set<object>>
    /** Everything that has happened. */
    ghost var events: seq<Occurrence>

    ghost function Objects(c: Word64): set<object>
      reads this
    {
      if c in owned then owned[c] else {}
    }

    /** The processes that stand for the run of their own events, and own their objects. */
    ghost function Intact(): set<Word64>
      reads this, set c, o | c in owned && o in owned[c] :: o
    {
      set c | c in processes && c in owned && Holds(processes[c], owned[c]) && processes[c].history == Of(events, c)
    }

    /** No two processes share an object. */
    ghost predicate Separate()
      reads this
    {
      && (forall c :: c in owned ==> this !in owned[c])
      && (forall c, d :: c in owned && d in owned && c != d ==> owned[c] !! owned[d])
    }

    ghost predicate Valid()
      reads this, set c, o | c in owned && o in owned[c] :: o
    {
      owned.Keys == processes.Keys == Intact() && Separate() && forall c :: c !in processes ==> Of(events, c) == []
    }

    constructor ()
      ensures Valid() && events == []
    {
      processes, owned, events := map[], map[], [];
    }

    /** process_get */
    method ProcessGet(ctx: Word64) returns (p: Process)
      requires Valid()
      modifies this`processes, this`owned
      ensures Valid() && fresh(Objects(ctx) - old(Objects(ctx)))
      ensures ctx in processes && processes[ctx] == p
    {
      hide Process.Ready, Only, Run;
      if ctx !in processes {
        AddProcess(ctx);
      }
      p := processes[ctx];
    }

    /** process_create */
    method AddProcess(ctx: Word64)
      requires Valid() && ctx !in processes
      modifies this`processes, this`owned
      ensures Valid() && fresh(Objects(ctx)) && ctx in processes
    {
      hide Process.Ready, Only, Run;
      var q := new Process();
      Adopt(ctx, q, {q, q.store, q.functions});
    }

    method Adopt(ctx: Word64, q: Process, ghost mine: set<object>)
      requires Valid() && ctx !in processes && Holds(q, mine) && q.history == [] && this !in mine
      requires forall c :: c in owned ==> owned[c] !! mine
      modifies this`processes, this`owned
      ensures Valid() && owned == old(owned)[ctx := mine] && processes == old(processes)[ctx := q]
    {
      hide Intact, Separate, Holds, Of;
      ghost var others := processes.Keys;
      Install(ctx, q, mine, others);
      Whole();
    }

    /** A new process with objects of its own leaves the others intact. */
    method Install(ctx: Word64, q: Process, ghost mine: set<object>, ghost others: set<Word64>)
      requires ctx !in processes && owned.Keys == processes.Keys && others <= Intact() && Separate()
      requires Holds(q, mine) && q.history == Of(events, ctx) && this !in mine
      requires forall c :: c in owned ==> owned[c] !! mine
      modifies this`processes, this`owned
      ensures owned == old(owned)[ctx := mine] && processes == old(processes)[ctx := q]
      ensures others <= Intact() && ctx in Intact() && Separate()
    {
      hide Process.Ready, Of, Run;
      processes, owned := processes[ctx := q], owned[ctx := mine];
      assert Holds(q, mine);
      forall c | c in others
        ensures c in Intact()
      {
        assert c in old(Intact());
      }
    }

    /** Nothing is missing. */
    lemma Whole()
      requires owned.Keys == processes.Keys <= Intact() && Separate()
      requires forall c :: c !in processes ==> Of(events, c) == []
      ensures Valid()
    {
      hide Holds, Separate, Of;
    }

    /** plugin_before_insn on a system call or return instruction. */
    method BeforeInsn(ctx: Word64, e: Event, stealPlan: seq<Turn>, insertPlan: seq<Turn>)
      requires Valid() && !e.BeforeTb? && (e.Exit? ==> Defined(Run(Of(events, ctx), |Of(events, ctx)|), e))
      modifies this, Objects(ctx)
      ensures events == old(events) + [In(ctx, e)]
      ensures !Run(Of(events, ctx), |Of(events, ctx)|).clashed ==> Valid()
    {
      hide Process.Ready, Only, Run;
      var p := ProcessGet(ctx);
      assert ctx in Intact();
      p.IsRun();
      if e.Enter? {
        CallInsn(ctx, p, e);
      } else {
        ReturnInsn(ctx, p, e, stealPlan, insertPlan);
      }
    }

    method CallInsn(ctx: Word64, p: Process, e: Event)
      requires Valid() && ctx in processes && processes[ctx] == p && e.Enter?
      modifies this`owned, this`events, Objects(ctx)
      ensures Valid() && events == old(events) + [In(ctx, e)]
    {
      hide Process.Ready, Only, Run;
      ghost var others := Intact() - {ctx};
      CallWithin(ctx, p, e, others);
      Settle(ctx, p, others, e);
    }

    method CallWithin(ctx: Word64, p: Process, e: Event, ghost others: set<Word64>)
      requires Valid() && ctx in processes && processes[ctx] == p && e.Enter? && others == Intact() - {ctx}
      modifies Objects(ctx)
      ensures p.Ready() && p.history == Of(events, ctx) + [e] && Holds(p, Objects(ctx))
      ensures others <= Intact()
    {
      hide Process.Ready, Of, Run;
      assert ctx in Intact();
      p.OnCall(e);
      forall c | c in others
        ensures c in Intact()
      {
        assert owned[c] !! owned[ctx];
      }
    }

    method ReturnInsn(ctx: Word64, p: Process, e: Event, stealPlan: seq<Turn>, insertPlan: seq<Turn>)
      requires Valid() && ctx in processes && processes[ctx] == p && e.Exit? && Defined(p.model, e)
      modifies this`owned, this`events, Objects(ctx)
      ensures events == old(events) + [In(ctx, e)]
      ensures !Run(Of(events, ctx), |Of(events, ctx)|).clashed ==> Valid()
    {
      hide Process.Ready, Only, Run;
      ghost var others := Intact() - {ctx};
      ReturnWithin(ctx, p, e, stealPlan, insertPlan, others);
      OfNext(events, In(ctx, e), ctx);
      Settle(ctx, p, others, e);
    }

    method ReturnWithin(ctx: Word64, p: Process, e: Event, stealPlan: seq<Turn>, insertPlan: seq<Turn>,
                        ghost others: set<Word64>)
      requires Valid() && ctx in processes && processes[ctx] == p && e.Exit? && Defined(p.model, e)
      requires others == Intact() - {ctx}
      modifies Objects(ctx)
      ensures p.history == Of(events, ctx) + [e] && p.model == Run(p.history, |p.history|)
              && (!p.model.clashed ==> p.Ready())
      ensures p in Objects(ctx) && p.store in Objects(ctx) && p.functions in Objects(ctx)
      ensures fresh(p.store.byName.Values - Objects(ctx)) && Codes(p.store) <= Objects(ctx)
      ensures others <= Intact()
    {
      hide Process.Ready, Of, Run, Step;
      assert ctx in Intact();
      p.OnReturn(e, stealPlan, insertPlan);
      forall c | c in others
        ensures c in Intact()
      {
        assert owned[c] !! owned[ctx];
      }
    }

    /** plugin_before_tb */
    method BeforeTb(ctx: Word64, pc: Word64, mem: Memory) returns (ghost found: Option<CString>)
      requires Valid()
      modifies this, Objects(ctx)
      ensures events == old(events) + [In(ctx, LinuxProcess.BeforeTb(pc, mem, found))] && Valid()
      ensures var h := Of(old(events), ctx); Answer(Intervals(Run(h, |h|).mappings), pc, found)
    {
      hide Process.Ready, Only, Run;
      var p := ProcessGet(ctx);
      assert ctx in Intact();
      p.IsRun();
      found := Block(ctx, p, pc, mem);
    }

    method Block(ctx: Word64, p: Process, pc: Word64, mem: Memory) returns (ghost found: Option<CString>)
      requires Valid() && ctx in processes && processes[ctx] == p
      modifies this`owned, this`events, Objects(ctx)
      ensures events == old(events) + [In(ctx, LinuxProcess.BeforeTb(pc, mem, found))] && Valid()
      ensures Answer(Intervals(old(p.model.mappings)), pc, found)
    {
      hide Process.Ready, Only, Run;
      ghost var others := Intact() - {ctx};
      found := BlockWithin(ctx, p, pc, mem, others);
      Settle(ctx, p, others, LinuxProcess.BeforeTb(pc, mem, found));
    }

    method BlockWithin(ctx: Word64, p: Process, pc: Word64, mem: Memory, ghost others: set<Word64>)
      returns (ghost found: Option<CString>)
      requires Valid() && ctx in processes && processes[ctx] == p && others == Intact() - {ctx}
      modifies Objects(ctx)
      ensures p.Ready() && p.history == Of(events, ctx) + [LinuxProcess.BeforeTb(pc, mem, found)]
      ensures Answer(Intervals(old(p.model.mappings)), pc, found)
      ensures p in Objects(ctx) && p.store in Objects(ctx) && p.functions in Objects(ctx)
      ensures p.store.byName.Values <= Objects(ctx) && fresh(Codes(p.store) - Objects(ctx))
      ensures others <= Intact()
    {
      hide Process.Ready, Of, Run;
      assert ctx in Intact();
      found := p.OnBlock(pc, mem);
      forall c | c in others
        ensures c in Intact()
      {
        assert owned[c] !! owned[ctx];
      }
    }

    /** The end of an event: process p owns the objects it has made, and the event belongs to the past. */
    ghost method Settle(ctx: Word64, p: Process, others: set<Word64>, e: Event)
      requires ctx in processes && processes[ctx] == p && owned.Keys == processes.Keys && Separate()
      requires others == processes.Keys - {ctx} <= Intact()
      requires forall c :: c !in processes ==> Of(events, c) == []
      requires p in Objects(ctx) && p.store in Objects(ctx) && p.functions in Objects(ctx)
      requires forall o, c :: o in p.store.byName.Values + Codes(p.store) && o !in Objects(ctx) && c in owned ==>
                                o != this && o !in owned[c]
      requires p.history == Of(events, ctx) + [e]
      modifies this`owned, this`events
      ensures events == old(events) + [In(ctx, e)]
      ensures p.Ready() ==> Valid()
    {
      hide Process.Ready, Only, Run;
      Grow(ctx, p.store.byName.Values + Codes(p.store), others);
      Log(ctx, p, others, e);
    }

    ghost method Grow(ctx: Word64, made: set<object>, others: set<Word64>)
      requires ctx in owned && Separate() && others <= Intact() - {ctx}
      requires forall o, c :: o in made && o !in owned[ctx] && c in owned ==> o != this && o !in owned[c]
      modifies this`owned
      ensures owned == old(owned)[ctx := old(owned)[ctx] + made]
      ensures Separate() && others <= Intact() - {ctx}
    {
      hide Process.Ready, Only, Run;
      owned := owned[ctx := owned[ctx] + made];
      forall c | c in others
        ensures c in Intact()
      {
        assert c in old(Intact());
      }
    }

    ghost method Log(ctx: Word64, p: Process, others: set<Word64>, e: Event)
      requires ctx in processes && processes[ctx] == p && owned.Keys == processes.Keys && Separate()
      requires others == processes.Keys - {ctx} <= Intact()
      requires forall c :: c !in processes ==> Of(events, c) == []
      requires p in owned[ctx] && p.store in owned[ctx] && p.functions in owned[ctx]
      requires p.store.byName.Values <= owned[ctx] && Codes(p.store) <= owned[ctx]
      requires p.history == Of(events, ctx) + [e]
      modifies this`events
      ensures events == old(events) + [In(ctx, e)]
      ensures p.Ready() ==> Valid()
    {
      hide Process.Ready, Of, Run, Separate;
      Append(ctx, others, e);
      if Holds(p, owned[ctx]) {
        assert ctx in Intact();
        Whole();
      }
    }

    ghost method Append(ctx: Word64, others: set<Word64>, e: Event)
      requires ctx !in others && others <= Intact() && Separate()
      modifies this`events
      ensures events == old(events) + [In(ctx, e)]
      ensures forall c :: Of(events, c) == if c == ctx then old(Of(events, c)) + [e] else old(Of(events, c))
      ensures others <= Intact() && Separate()
    {
      hide Process.Ready, Of, Run;
      events := events + [In(ctx, e)];
      forall c
        ensures Of(events, c) == if c == ctx then old(Of(events, c)) + [e] else old(Of(events, c))
      {
        OfNext(old(events), In(ctx, e), c);
      }
      forall c | c in others
        ensures c in Intact()
      {
        assert c in old(Intact());
      }
    }
  }

  /**
   Each process object stands for what the interleaving makes of its process, which its own events alone would too.
   */
  lemma AsAlone(t: Tracer, c: Word64)
    requires t.Valid()
    ensures c in t.processes ==>
              && t.processes[c].model == Get(After(t.events, |t.events|), c)
              && t.processes[c].model == Run(Of(t.events, c), |Of(t.events, c)|)
    ensures c !in t.processes ==> c !in After(t.events, |t.events|)
  {
    Projection(t.events, |t.events|, c);
    if c in t.processes {
      assert c in t.Intact();
    }
  }
}
