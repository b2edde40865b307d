/** process.c: the states of all traced processes, keyed by context. */
module Plugin {
  import opened Words
  import opened LinuxProcess

  type World = map<Word64, Proc>

  datatype Occurrence = In(ctx: Word64, event: Event)

  /** process_get, seen from the result. */
  function Get(w: World, c: Word64): Proc {
    if c in w then w[c] else NEW_PROCESS
  }

  function Happen(w: World, o: Occurrence): World {
    w[o.ctx := Step(Get(w, o.ctx), o.event)]
  }

  /** All processes after the first n events of an interleaving. */
  function After(os: seq<Occurrence>, n: nat): World
    requires n <= |os|
  {
    if n == 0 then map[] else Happen(After(os, n - 1), os[n - 1])
  }

  /** The events of context c among the first n. */
  function Only(os: seq<Occurrence>, n: nat, c: Word64): History
    requires n <= |os|
  {
    if n == 0 then []
    else if os[n - 1].ctx == c then Only(os, n - 1, c) + [os[n - 1].event]
    else Only(os, n - 1, c)
  }

  /** Each process looks as if only its own events had happened. */
  lemma {:induction false} Projection(os: seq<Occurrence>, n: nat, c: Word64)
    requires n <= |os|
    ensures c in After(os, n) <==> Only(os, n, c) != []
    ensures Get(After(os, n), c) == Run(Only(os, n, c), |Only(os, n, c)|)
    decreases n
  {
    hide Step;
    if n > 0 {
      Projection(os, n - 1, c);
      if os[n - 1].ctx == c {
        var h, e := Only(os, n - 1, c), os[n - 1].event;
        RunOfPrefix(h, e, |h|);
        assert (h + [e])[|h|] == e;
      }
    }
  }
}
