/**
 What the two module readers share: failing reads of a mapped image, name strings, and the loop that adds tracepoints.
 */
module ImageReading {
  import opened Words
  import opened GuestMemory
  import opened FunctionTable

  /**
   How one attempt ends: `return true`, `return false`, or not at all, when a 64-bit loop counter goes round for ever.
   */
  datatype Verdict = Done | Retry | Endless

  datatype Outcome = Outcome(verdict: Verdict, added: seq<Tracepoint>)

  const NAME_LIMIT: nat := 127

  /** The mapped file as LOAD and LOAD32 see it: scalars at offsets from the image base, which may be unreadable. */
  type Image = (int, Width) -> Option<Word64>

  /** The image at `base` in a guest memory; the additions wrap. */
  function ImageAt(mem: Memory, base: Word64): Image {
    (off, w) => Read(mem, base + off, w)
  }

  /** A scalar of the image, by offset. */
  datatype Field = Field(off: int, w: Width)

  /** LOAD of the fields one after the other: the first that is not readable ends the attempt. */
  function Loads(img: Image, fields: seq<Field>): (r: Option<seq<Word64>>)
    ensures r.Some? ==> |r.value| == |fields|
    decreases |fields|
  {
    if fields == [] then Some([])
    else match img(fields[0].off, fields[0].w)
      case None => None
      case Some(v) =>
        match Loads(img, fields[1..])
        case None => None
        case Some(vs) => Some([v] + vs)
  }

  /** The loads succeed exactly when every field is readable, and give the fields' values. */
  lemma {:induction false} LoadsExact(img: Image, fields: seq<Field>, vs: seq<Word64>)
    ensures Loads(img, fields) == Some(vs) <==>
            |vs| == |fields| && forall i :: 0 <= i < |fields| ==> img(fields[i].off, fields[i].w) == Some(vs[i])
    decreases |fields|
  {
    if fields != [] && vs != [] {
      LoadsExact(img, fields[1..], vs[1..]);
      assert vs == [vs[0]] + vs[1..];
      if |vs| == |fields| && img(fields[0].off, fields[0].w) == Some(vs[0]) {
        assert (forall i :: 0 <= i < |fields| ==> img(fields[i].off, fields[i].w) == Some(vs[i])) <==>
               (forall i :: 0 <= i < |fields| - 1 ==>
                              img(fields[1..][i].off, fields[1..][i].w) == Some(vs[1..][i])) by {
          assert forall i :: 0 < i < |fields| ==> fields[i] == fields[1..][i - 1] && vs[i] == vs[1..][i - 1];
          assert forall i :: 0 <= i < |fields| - 1 ==> fields[1..][i] == fields[i + 1] && vs[1..][i] == vs[i + 1];
        }
      }
    }
  }

  /**
   The bytes of the symbol name that starts at `start`, of which `str` is already read: cut at NUL or at 127 bytes.
   */
  function ReadName(img: Image, start: int, str: seq<Byte>): Option<seq<Byte>>
    requires |str| <= NAME_LIMIT
    decreases NAME_LIMIT - |str|
  {
    if |str| == NAME_LIMIT then Some(str)
    else match img(start + |str|, W8)
      case None => None
      case Some(v) => if v % 256 == 0 then Some(str) else ReadName(img, start, str + [v % 256])
  }

  /** g_strjoin(":", filename, str, NULL): a NULL file name already ends the list. */
  function FullName(file: CString, str: seq<Byte>): seq<Byte> {
    match file
    case Null => []
    case Text(bytes) => bytes + [':' as int] + str
  }

  type Calls = Word64 -> Option<seq<Tracepoint>>

  /**
   The loop `for (; s < end; s += step)` over symbols, after the calls in `acc`, for at most `left` steps. A counter
   that has taken 2^64 steps has been where it is before, so a loop that is still running then never ends.
   */
  function Walk(calls: Calls, s: Word64, end: Word64, step: Word64, acc: seq<Tracepoint>, left: nat): Outcome
    decreases left
  {
    if s >= end then Outcome(Done, acc)
    else match calls(s)
      case None => Outcome(Retry, acc)
      case Some(more) =>
        if left == 0 then Outcome(Endless, acc + more)
        else Walk(calls, Add64(s, step), end, step, acc + more, left - 1)
  }

  lemma WalkPastEnd(calls: Calls, s: Word64, end: Word64, step: Word64, acc: seq<Tracepoint>, left: nat)
    requires s >= end
    ensures Walk(calls, s, end, step, acc, left) == Outcome(Done, acc)
  {}

  /** More steps than it takes the counter to come back, or none if it does not move. */
  function Rounds(step: Word64): nat {
    step * TWO_TO_64
  }

  /** Earlier calls only stand in front. */
  lemma {:induction false} WalkAppends(calls: Calls, s: Word64, end: Word64, step: Word64, acc: seq<Tracepoint>,
                                       left: nat)
    ensures Walk(calls, s, end, step, acc, left).verdict == Walk(calls, s, end, step, [], left).verdict
    ensures Walk(calls, s, end, step, acc, left).added == acc + Walk(calls, s, end, step, [], left).added
    decreases left
  {
    if s < end && calls(s).Some? {
      var more := calls(s).value;
      assert [] + more == more;
      if left > 0 {
        var next := Add64(s, step);
        WalkAppends(calls, next, end, step, acc + more, left - 1);
        WalkAppends(calls, next, end, step, more, left - 1);
        var rest := Walk(calls, next, end, step, [], left - 1).added;
        assert (acc + more) + rest == acc + (more + rest);
      }
    }
  }

  /** One symbol and the rest. */
  lemma WalkOne(calls: Calls, s: Word64, end: Word64, step: Word64, more: seq<Tracepoint>, left: nat)
    requires s < end && left > 0 && calls(s) == Some(more)
    ensures var rest := Walk(calls, Add64(s, step), end, step, [], left - 1);
            Walk(calls, s, end, step, [], left) == Outcome(rest.verdict, more + rest.added)
  {
    assert [] + more == more;
    WalkAppends(calls, Add64(s, step), end, step, more, left - 1);
  }

  /** The name loop of parse_header_elf. */
  method LoadName(img: Image, start: int) returns (str: Option<seq<Byte>>)
    ensures str == ReadName(img, start, [])
  {
    var name: seq<Byte> := [];
    while |name| < NAME_LIMIT
      invariant |name| <= NAME_LIMIT
      invariant ReadName(img, start, []) == ReadName(img, start, name)
    {
      var v := img(start + |name|, W8);
      if v.None? {
        return None;
      }
      if v.value % 256 == 0 {
        break;
      }
      name := name + [v.value % 256];
    }
    return Some(name);
  }
}
