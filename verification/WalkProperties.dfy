/** Properties of the shared reading loops, for any reader. */
module WalkProperties {
  import opened Words
  import opened GuestMemory
  import opened FunctionTable
  import opened ImageReading

  ghost predicate Refines(img: Image, img': Image) {
    forall off, w :: img(off, w).Some? ==> img'(off, w) == img(off, w)
  }

  lemma ImagesRefine(mem: Memory, mem': Memory, base: Word64)
    requires Extends(mem, mem')
    ensures Refines(ImageAt(mem, base), ImageAt(mem', base))
  {
    forall off, w
      ensures ImageAt(mem, base)(off, w).Some? ==> ImageAt(mem', base)(off, w) == ImageAt(mem, base)(off, w)
    {
      ReadExtends(mem, mem', base + off, w);
    }
  }

  lemma {:induction false} LoadsRefine(img: Image, img': Image, fields: seq<Field>)
    requires Refines(img, img')
    ensures Loads(img, fields).Some? ==> Loads(img', fields) == Loads(img, fields)
    decreases |fields|
  {
    if fields != [] {
      LoadsRefine(img, img', fields[1..]);
    }
  }

  lemma {:induction false} NameRefines(img: Image, img': Image, start: int, str: seq<Byte>)
    requires Refines(img, img') && |str| <= NAME_LIMIT
    ensures ReadName(img, start, str).Some? ==> ReadName(img', start, str) == ReadName(img, start, str)
    decreases NAME_LIMIT - |str|
  {
    if |str| < NAME_LIMIT && img(start + |str|, W8).Some? {
      NameRefines(img, img', start, str + [img(start + |str|, W8).value % 256]);
    }
  }

  lemma {:induction false} WalkRefines(calls: Calls, calls': Calls, s: Word64, end: Word64, step: Word64,
                                       acc: seq<Tracepoint>, left: nat)
    requires forall x :: calls(x).Some? ==> calls'(x) == calls(x)
    ensures Walk(calls, s, end, step, acc, left).added <= Walk(calls', s, end, step, acc, left).added
    ensures Walk(calls, s, end, step, acc, left).verdict != Retry ==>
              Walk(calls', s, end, step, acc, left) == Walk(calls, s, end, step, acc, left)
    decreases left
  {
    WalkAppends(calls', s, end, step, acc, left);
    if s < end && calls(s).Some? && left > 0 {
      WalkRefines(calls, calls', Add64(s, step), end, step, acc + calls(s).value, left - 1);
    }
  }

  /** The offset of symbol number k. */
  function Offset(start: int, step: int, k: nat): int {
    start + k * step
  }

  ghost predicate OnGrid(start: Word64, end: Word64, step: Word64, s: Word64) {
    s < end && exists k: nat :: s == Offset(start, step, k)
  }

  lemma GridStep(start: Word64, next: Word64, end: Word64, step: Word64, s: Word64)
    requires step != 0 && next == start + step
    ensures OnGrid(start, end, step, s) <==> (s == start && start < end) || OnGrid(next, end, step, s)
    ensures OnGrid(next, end, step, s) ==> start < s
  {
    assert Offset(start, step, 0) == start;
    if OnGrid(start, end, step, s) && s != start {
      var k: nat :| s == Offset(start, step, k);
      assert s == Offset(next, step, k - 1);
    }
    if OnGrid(next, end, step, s) {
      var k: nat :| s == Offset(next, step, k);
      assert s == Offset(start, step, k + 1);
      assert k * step >= 0;
    }
  }

  lemma GridIsBounded(start: Word64, end: Word64, step: Word64, s: Word64)
    requires OnGrid(start, end, step, s)
    ensures start <= s < end
  {
    var k: nat :| s == Offset(start, step, k);
    assert k * step >= 0;
  }

  // ----- the symbols that a walk visits -----

  /** The counter after k steps; it may have wrapped around. */
  function Visit(start: Word64, step: Word64, k: nat): Word64 {
    Add64(start, k * step)
  }

  /** The loop condition holds for the first time round to the k-th. */
  ghost predicate Visited(start: Word64, end: Word64, step: Word64, k: nat) {
    forall j: nat :: j <= k ==> Visit(start, step, j) < end
  }

  lemma VisitNext(start: Word64, step: Word64, k: nat)
    ensures Visit(start, step, 0) == start
    ensures Visit(Add64(start, step), step, k) == Visit(start, step, k + 1)
  {
    assert (k + 1) * step == step + k * step;
    assert ((start + step) % TWO_TO_64 + k * step) % TWO_TO_64 == (start + step + k * step) % TWO_TO_64;
  }

  lemma VisitedNext(start: Word64, end: Word64, step: Word64, k: nat)
    ensures Visited(start, end, step, 0) <==> start < end
    ensures Visited(start, end, step, k + 1) <==> start < end && Visited(Add64(start, step), end, step, k)
  {
    var next := Add64(start, step);
    VisitNext(start, step, 0);
    forall j: nat
      ensures Visit(next, step, j) == Visit(start, step, j + 1)
    {
      VisitNext(start, step, j);
    }
    if start < end && Visited(next, end, step, k) {
      forall j: nat | j <= k + 1
        ensures Visit(start, step, j) < end
      {
        assert j > 0 ==> Visit(next, step, j - 1) == Visit(start, step, j);
      }
    }
    if Visited(start, end, step, k + 1) {
      forall j: nat | j <= k
        ensures Visit(next, step, j) < end
      {
        assert Visit(start, step, j + 1) < end;
      }
    }
  }

  /** The symbol at offset x makes a call for `entry`. */
  ghost predicate CallsFor(calls: Calls, x: Word64, entry: Word64) {
    calls(x).Some? && exists i :: 0 <= i < |calls(x).value| && calls(x).value[i].entry == entry
  }

  /** Every call of a walk is one of those it started with or belongs to a visited symbol. */
  lemma {:induction false} WalkComesFrom(calls: Calls, s: Word64, end: Word64, step: Word64, acc: seq<Tracepoint>,
                                         left: nat, c: Tracepoint)
    returns (k: nat)
    requires c in Walk(calls, s, end, step, acc, left).added
    ensures c in acc ||
            (Visited(s, end, step, k) && calls(Visit(s, step, k)).Some? && c in calls(Visit(s, step, k)).value)
    decreases left
  {
    k := 0;
    if s < end && calls(s).Some? {
      VisitNext(s, step, 0);
      VisitedNext(s, end, step, 0);
      if left > 0 && c !in acc + calls(s).value {
        var j := WalkComesFrom(calls, Add64(s, step), end, step, acc + calls(s).value, left - 1, c);
        VisitNext(s, step, j);
        VisitedNext(s, end, step, j);
        k := j + 1;
      }
    }
  }

  /** What a finished walk records for an entry that no visited symbol names: nothing. */
  lemma {:induction false} WalkKeeps(calls: Calls, s: Word64, end: Word64, step: Word64, left: nat, t: Entries,
                                     entry: Word64)
    requires Walk(calls, s, end, step, [], left).verdict == Done
    requires forall k: nat :: Visited(s, end, step, k) ==> !CallsFor(calls, Visit(s, step, k), entry)
    ensures var table := Record(t, Walk(calls, s, end, step, [], left).added);
            (entry in table <==> entry in t) && (entry in t ==> table[entry] == t[entry])
    decreases left
  {
    if s < end {
      var more, next := calls(s).value, Add64(s, step);
      WalkOne(calls, s, end, step, more, left);
      RecordConcat(t, more, Walk(calls, next, end, step, [], left - 1).added);
      forall k: nat | Visited(next, end, step, k)
        ensures !CallsFor(calls, Visit(next, step, k), entry)
      {
        VisitNext(s, step, k);
        VisitedNext(s, end, step, k);
      }
      WalkKeeps(calls, next, end, step, left - 1, Record(t, more), entry);
      RecordTargets(t, more);
      VisitNext(s, step, 0);
      VisitedNext(s, end, step, 0);
      assert !CallsFor(calls, Visit(s, step, 0), entry);
      assert entry !in Targets(more);
    }
  }

  /** The last visited symbol that names an entry gives it its name. */
  lemma {:induction false} WalkWins(calls: Calls, s: Word64, end: Word64, step: Word64, left: nat, t: Entries, k: nat,
                                    call: Tracepoint)
    requires Walk(calls, s, end, step, [], left).verdict == Done
    requires Visited(s, end, step, k) && calls(Visit(s, step, k)) == Some([call])
    requires forall j: nat :: k < j && Visited(s, end, step, j) ==> !CallsFor(calls, Visit(s, step, j), call.entry)
    ensures var table := Record(t, Walk(calls, s, end, step, [], left).added);
            call.entry in table && table[call.entry] == call.name
    decreases left
  {
    VisitNext(s, step, 0);
    assert Visit(s, step, 0) < end;
    var more, next := calls(s).value, Add64(s, step);
    WalkOne(calls, s, end, step, more, left);
    RecordConcat(t, more, Walk(calls, next, end, step, [], left - 1).added);
    forall j: nat | k <= j && Visited(next, end, step, j)
      ensures !CallsFor(calls, Visit(next, step, j), call.entry)
    {
      VisitNext(s, step, j);
      VisitedNext(s, end, step, j);
    }
    if k == 0 {
      WalkKeeps(calls, next, end, step, left - 1, Record(t, more), call.entry);
    } else {
      VisitNext(s, step, k - 1);
      VisitedNext(s, end, step, k - 1);
      WalkWins(calls, next, end, step, left - 1, Record(t, more), k - 1, call);
    }
  }

  /** The byte at an offset is readable and has this value. */
  ghost predicate Holds(img: Image, off: int, b: Byte) {
    img(off, W8).Some? && img(off, W8).value % 256 == b
  }

  /** `name` continues `str` with the non-zero bytes of the image, up to a NUL or the limit of 127. */
  ghost predicate Spells(img: Image, start: int, str: seq<Byte>, name: seq<Byte>) {
    && str <= name && |name| <= NAME_LIMIT
    && (forall i :: |str| <= i < |name| ==> name[i] != 0 && Holds(img, start + i, name[i]))
    && (|name| == NAME_LIMIT || Holds(img, start + |name|, 0))
  }

  lemma SpellsOn(img: Image, start: int, str: seq<Byte>, c: Byte, name: seq<Byte>)
    requires |str| < NAME_LIMIT && Holds(img, start + |str|, c) && c != 0
    ensures Spells(img, start, str, name) <==> Spells(img, start, str + [c], name)
  {
    if Spells(img, start, str, name) {
      assert |str| < |name| && Holds(img, start + |str|, name[|str|]);
    }
  }

  /** A symbol name is the bytes before the first NUL, or the first 127 bytes when there is none among them. */
  lemma {:induction false} NameIsExact(img: Image, start: int, str: seq<Byte>, name: seq<Byte>)
    requires |str| <= NAME_LIMIT
    ensures ReadName(img, start, str) == Some(name) <==> Spells(img, start, str, name)
    decreases NAME_LIMIT - |str|
  {
    assert str <= name && |name| == |str| ==> name == str;
    if |str| < NAME_LIMIT {
      var v := img(start + |str|, W8);
      if v.Some? && v.value % 256 != 0 {
        SpellsOn(img, start, str, v.value % 256, name);
        NameIsExact(img, start, str + [v.value % 256], name);
      } else {
        assert |str| < |name| && Holds(img, start + |str|, name[|str|]) ==> name[|str|] == 0;
      }
    }
  }

  /** The symbol loop comes to its k-th symbol. */
  ghost predicate Reaches(calls: Calls, start: Word64, end: Word64, step: Word64, k: nat) {
    Visited(start, end, step, k) && forall j: nat :: j < k ==> calls(Visit(start, step, j)).Some?
  }

  lemma ReachesNext(calls: Calls, start: Word64, end: Word64, step: Word64, k: nat)
    requires start < end && calls(start).Some? && Reaches(calls, Add64(start, step), end, step, k)
    ensures Reaches(calls, start, end, step, k + 1)
  {
    VisitedNext(start, end, step, k);
    forall j: nat | j < k + 1
      ensures calls(Visit(start, step, j)).Some?
    {
      if j == 0 {
        VisitNext(start, step, 0);
      } else {
        VisitNext(start, step, j - 1);
      }
    }
  }

  /** The loop only depends on the symbols it reaches. */
  lemma {:induction false} WalkReached(calls: Calls, calls': Calls, s: Word64, end: Word64, step: Word64,
                                       acc: seq<Tracepoint>, left: nat)
    requires forall k: nat :: Reaches(calls, s, end, step, k) ==> calls'(Visit(s, step, k)) == calls(Visit(s, step, k))
    ensures Walk(calls', s, end, step, acc, left) == Walk(calls, s, end, step, acc, left)
    decreases left
  {
    if s < end {
      VisitNext(s, step, 0);
      VisitedNext(s, end, step, 0);
      assert Reaches(calls, s, end, step, 0);
      if calls(s).Some? && left > 0 {
        var next := Add64(s, step);
        forall k: nat | Reaches(calls, next, end, step, k)
          ensures calls'(Visit(next, step, k)) == calls(Visit(next, step, k))
        {
          ReachesNext(calls, s, end, step, k);
          VisitNext(s, step, k);
        }
        WalkReached(calls, calls', next, end, step, acc + calls(s).value, left - 1);
      }
    }
  }

  /** The loop gets past its k-th symbol. */
  ghost predicate Passes(calls: Calls, start: Word64, end: Word64, step: Word64, k: nat) {
    Visit(start, step, k) < end && calls(Visit(start, step, k)).Some?
  }

  /** Where a walk of so many steps ends. */
  lemma {:induction false} WalkEnds(calls: Calls, s: Word64, end: Word64, step: Word64, acc: seq<Tracepoint>,
                                    left: nat) returns (n: nat)
    ensures n <= left && forall k: nat :: k < n ==> Passes(calls, s, end, step, k)
    ensures match Walk(calls, s, end, step, acc, left).verdict
            case Done => Visit(s, step, n) >= end
            case Retry => Visit(s, step, n) < end && calls(Visit(s, step, n)).None?
            case Endless => n == left && Passes(calls, s, end, step, n)
    decreases left
  {
    n := 0;
    VisitNext(s, step, 0);
    if s < end && calls(s).Some? && left > 0 {
      var m := WalkEnds(calls, Add64(s, step), end, step, acc + calls(s).value, left - 1);
      n := m + 1;
      forall k: nat | k < n
        ensures Passes(calls, s, end, step, k)
      {
        if k > 0 {
          VisitNext(s, step, k - 1);
          assert Passes(calls, Add64(s, step), end, step, k - 1);
        }
      }
      VisitNext(s, step, m);
    }
  }

  /** The counter comes back after 2^64 steps. */
  lemma VisitPeriod(start: Word64, step: Word64, k: nat)
    ensures Visit(start, step, k) == Visit(start, step, k % TWO_TO_64)
  {
    var q, r := k / TWO_TO_64, k % TWO_TO_64;
    assert k * step == r * step + TWO_TO_64 * (q * step) by {
      assert k == r + TWO_TO_64 * q;
      assert (TWO_TO_64 * q) * step == TWO_TO_64 * (q * step);
      assert (r + TWO_TO_64 * q) * step == r * step + (TWO_TO_64 * q) * step;
    }
    RoundTrips(start + r * step, q * step);
  }

  lemma RoundTrips(a: int, m: int)
    ensures (a + TWO_TO_64 * m) % TWO_TO_64 == a % TWO_TO_64
  {}

  /** The loop stops at its n-th symbol. */
  ghost predicate StopsAt(calls: Calls, start: Word64, end: Word64, step: Word64, n: nat) {
    !Passes(calls, start, end, step, n) && forall k: nat :: k < n ==> Passes(calls, start, end, step, k)
  }

  lemma StopsOnce(calls: Calls, start: Word64, end: Word64, step: Word64, n: nat, m: nat)
    requires StopsAt(calls, start, end, step, n) && StopsAt(calls, start, end, step, m)
    ensures n == m
  {}

  lemma EndlessPasses(calls: Calls, s: Word64, end: Word64, step: Word64, k: nat)
    requires forall j: nat :: j <= Rounds(step) ==> Passes(calls, s, end, step, j)
    ensures Passes(calls, s, end, step, k)
  {
    if step == 0 {
      assert Visit(s, step, k) == Visit(s, step, 0) && Passes(calls, s, end, step, 0);
    } else {
      assert Rounds(step) >= TWO_TO_64;
      VisitPeriod(s, step, k);
      assert Passes(calls, s, end, step, k % TWO_TO_64);
    }
  }

  /**
   How the loop ends: at the first symbol that it does not get past, with failure if that is unreadable and with
   success if the counter has reached the end; or not at all, if there is no such symbol.
   */
  lemma WalkVerdict(calls: Calls, s: Word64, end: Word64, step: Word64, acc: seq<Tracepoint>)
    ensures var v := Walk(calls, s, end, step, acc, Rounds(step)).verdict;
            && (v == Endless <==> forall n: nat :: Passes(calls, s, end, step, n))
            && (forall n: nat :: StopsAt(calls, s, end, step, n) ==>
                                   v == if Visit(s, step, n) >= end then Done else Retry)
            && (v != Endless ==> exists n: nat :: StopsAt(calls, s, end, step, n))
  {
    var v := Walk(calls, s, end, step, acc, Rounds(step)).verdict;
    var n := WalkEnds(calls, s, end, step, acc, Rounds(step));
    if v == Endless {
      forall k: nat
        ensures Passes(calls, s, end, step, k)
      {
        EndlessPasses(calls, s, end, step, k);
      }
    } else {
      assert StopsAt(calls, s, end, step, n);
      forall m: nat | StopsAt(calls, s, end, step, m)
        ensures m == n
      {
        StopsOnce(calls, s, end, step, n, m);
      }
    }
  }

  lemma VisitStep(s: Word64, step: Word64, k: nat)
    ensures Visit(s, step, k + 1) == Add64(Visit(s, step, k), step)
  {
    assert (k + 1) * step == k * step + step;
    WrapTwice(s + k * step, step);
  }

  lemma WrapTwice(a: int, b: int)
    ensures (a % TWO_TO_64 + b) % TWO_TO_64 == (a + b) % TWO_TO_64
  {}

  /** A counter that cannot wrap on its last step only grows. */
  lemma {:induction false} VisitGrows(s: Word64, end: Word64, step: Word64, k: nat)
    requires step > 0 && end + step <= TWO_TO_64 && forall j: nat :: j < k ==> Visit(s, step, j) < end
    ensures Visit(s, step, k) >= k
    decreases k
  {
    if k > 0 {
      VisitGrows(s, end, step, k - 1);
      VisitStep(s, step, k - 1);
    }
  }

  /** The loop ends when the end of the table plus one step fits in 64 bits. */
  lemma NeverEndless(calls: Calls, s: Word64, end: Word64, step: Word64, acc: seq<Tracepoint>)
    requires step > 0 && end + step <= TWO_TO_64
    ensures Walk(calls, s, end, step, acc, Rounds(step)).verdict != Endless
  {
    WalkVerdict(calls, s, end, step, acc);
    if forall n: nat :: Passes(calls, s, end, step, n) {
      assert Passes(calls, s, end, step, end);
      forall j: nat | j < end
        ensures Visit(s, step, j) < end
      {
        assert Passes(calls, s, end, step, j);
      }
      VisitGrows(s, end, step, end);
    }
  }

  // ----- repeated attempts -----

  /** The calls of each attempt, followed by whatever other modules add. */
  function Attempts(t: Entries, tries: seq<seq<Tracepoint>>, others: seq<seq<Tracepoint>>): Entries
    requires |tries| == |others|
    decreases |tries|
  {
    if tries == [] then t else Attempts(Record(Record(t, tries[0]), others[0]), tries[1..], others[1..])
  }

  function OthersOnly(t: Entries, others: seq<seq<Tracepoint>>): Entries
    decreases |others|
  {
    if others == [] then t else OthersOnly(Record(t, others[0]), others[1..])
  }

  function Flat(lists: seq<seq<Tracepoint>>): seq<Tracepoint>
    decreases |lists|
  {
    if lists == [] then [] else lists[0] + Flat(lists[1..])
  }

  lemma {:induction false} OthersAsOne(t: Entries, others: seq<seq<Tracepoint>>)
    ensures OthersOnly(t, others) == Record(t, Flat(others))
    decreases |others|
  {
    if others != [] {
      OthersAsOne(Record(t, others[0]), others[1..]);
      RecordConcat(t, others[0], Flat(others[1..]));
    }
  }

  /** Attempts that each added a prefix of the final list leave no trace under it. */
  lemma {:induction false} TriesAreAbsorbed(t: Entries, tries: seq<seq<Tracepoint>>, others: seq<seq<Tracepoint>>,
                                            all: seq<Tracepoint>)
    requires |tries| == |others|
    requires forall i :: 0 <= i < |tries| ==> tries[i] <= all
    ensures Record(Attempts(t, tries, others), all) == Record(OthersOnly(t, others), all)
    decreases |tries|
  {
    if tries != [] {
      var first := tries[0];
      TriesAreAbsorbed(Record(Record(t, first), others[0]), tries[1..], others[1..], all);
      OthersAsOne(Record(Record(t, first), others[0]), others[1..]);
      OthersAsOne(Record(t, others[0]), others[1..]);
      RecordConcat(Record(t, first), others[0], Flat(others[1..]));
      RecordConcat(t, others[0], Flat(others[1..]));
      PrefixIsAbsorbed(t, first, others[0] + Flat(others[1..]), all);
    }
  }
}
