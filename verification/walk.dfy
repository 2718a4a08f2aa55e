/** The loops of `measure_string_lexeme` and `unescape_string`, separated
    from what their bodies read. Each loop visits a string body position by
    position; what one iteration does at a position is given by a table
    with one entry per byte, so the loops and the agreement between them
    can be reasoned about without unfolding the escape and UTF-8 code. */
module StringWalk {
  import opened Bytes
  import opened Results

  /** A positive byte count: every iteration that continues moves on. */
  type pos = n: nat | 1 <= n witness 1

  /** One iteration of the measuring loop: the closing quote, a rejection
      (a zero return), or a step over `consumed` bytes that adds `length`
      to the unescaped length. */
  datatype Measure = Close | Reject | Advance(consumed: pos, length: nat)

  /** Why materializing a string failed. `LengthMismatch` is the state in
      which the `assert(out == end)` at the closing quote would fire;
      `NoRoom` is the `end - out` check of the loop head and of the two
      copying routines. */
  datatype StringError = Unterminated | BadEscape | BadCodePoint | NoRoom | LengthMismatch

  /** One iteration of the materializing loop: the closing quote, a
      failure, or a step over `consumed` bytes that writes `bytes`. */
  datatype Piece = End | Fail(error: StringError) | Write(consumed: pos, bytes: seq<byte>)

  /** Where the measuring loop stopped (just past the closing quote) and
      the unescaped length it computed, terminating NUL included. */
  datatype Measured = Measured(end: nat, length: nat)

  /** The measuring loop from `j` with `ul` bytes counted so far. Running
      off the table is a failure: the text holds no closing quote. */
  function MeasureWalk(t: seq<Measure>, j: nat, ul: nat): (r: Option<Measured>)
    ensures r.Some? ==> j < r.value.end <= |t| && t[r.value.end - 1] == Close
    ensures r.Some? ==> ul < r.value.length
    decreases |t| - j
  {
    if j >= |t| then None
    else match t[j]
      case Close => Some(Measured(j + 1, ul + 1))
      case Reject => None
      case Advance(c, l) => MeasureWalk(t, j + c, ul + l)
  }

  /** An advancing step hands the walk on past the bytes it read. */
  lemma MeasureWalkStep(t: seq<Measure>, j: nat, ul: nat, c: pos, l: nat)
    requires j < |t| && t[j] == Advance(c, l)
    ensures MeasureWalk(t, j, ul) == MeasureWalk(t, j + c, ul + l)
  {
  }

  /** The bytes the steps from `j` write, in order, up to the closing
      quote, with no regard for room: the string a materializing loop
      produces when nothing stops it. */
  function Written(t: seq<Piece>, j: nat): seq<byte>
    decreases |t| - j
  {
    if j >= |t| then []
    else match t[j]
      case Write(c, w) => w + Written(t, j + c)
      case _ => []
  }

  /** A write step puts its bytes before what the steps after it write. */
  lemma WrittenStep(t: seq<Piece>, j: nat, c: pos, w: seq<byte>)
    requires j < |t| && t[j] == Write(c, w)
    ensures Written(t, j) == w + Written(t, j + c)
  {
  }

  /** The materializing loop from `j` with `out` written so far into a
      block of `cap` bytes. The loop head fails once the block is full; a
      step whose bytes do not fit fails as well. A success is what was
      written before, then every step's bytes up to the quote, then the
      NUL. */
  function UnescapeWalk(t: seq<Piece>, j: nat, out: seq<byte>, cap: nat): (r: Result<seq<byte>, StringError>)
    ensures r.Ok? ==> 1 <= |r.value| == cap && r.value[cap - 1] == NUL
    ensures r.Ok? ==> |out| < cap && r.value == out + Written(t, j) + [NUL]
    decreases |t| - j
  {
    if |out| >= cap then Err(NoRoom)
    else if j >= |t| then Err(Unterminated)
    else match t[j]
      case End => if |out| + 1 == cap then Ok(out + [NUL]) else Err(LengthMismatch)
      case Fail(e) => Err(e)
      case Write(c, w) =>
        if cap - |out| < |w| then Err(NoRoom)
        else
          var r := UnescapeWalk(t, j + c, out + w, cap);
          assert r.Ok? ==> r.value == out + (w + Written(t, j + c)) + [NUL];
          r
  }

  /** The positions the measuring loop visits from `j`: `j` itself, and
      those visited from wherever the step at `j` leads. */
  predicate OnWalk(t: seq<Measure>, j: nat, k: nat)
    decreases |t| - j
  {
    j == k || (j < |t| && t[j].Advance? && OnWalk(t, j + t[j].consumed, k))
  }

  /** What the two loops must agree on at one position: the closing quote
      is seen by both; where measuring advances, materializing advances
      over the same bytes and writes the measured number of them, or
      refuses an escape. Where measuring rejects, nothing is required. */
  predicate Agrees(m: Measure, p: Piece) {
    match m
    case Close => p == End
    case Reject => true
    case Advance(c, l) => p == Fail(BadEscape) || (p.Write? && p.consumed == c && |p.bytes| == l)
  }

  predicate AgreeEverywhere(mt: seq<Measure>, pt: seq<Piece>) {
    |mt| == |pt| && forall k :: 0 <= k < |mt| ==> Agrees(mt[k], pt[k])
  }

  /** Every position the successful measuring loop visits lies inside the
      table, and the loop neither rejects there nor steps past the end. */
  lemma {:induction false} VisitedInside(t: seq<Measure>, j: nat, ul: nat, k: nat)
    requires MeasureWalk(t, j, ul).Some?
    requires OnWalk(t, j, k)
    ensures j <= k < MeasureWalk(t, j, ul).value.end && !t[k].Reject?
    decreases |t| - j
  {
    if j != k {
      VisitedInside(t, j + t[j].consumed, ul + t[j].length, k);
    }
  }

  /** The agreement theorem for the two loops: when the tables agree and
      measuring from `j` with `|out|` bytes counted ends at length `cap`,
      materializing into a `cap`-byte block never runs out of room, never
      runs off the text and never reaches the quote with the wrong fill.
      It succeeds exactly when no visited position refuses an escape, and
      otherwise fails with `BadEscape`. */
  lemma {:induction false} WalkAgreement(mt: seq<Measure>, pt: seq<Piece>, j: nat, out: seq<byte>, cap: nat)
    requires AgreeEverywhere(mt, pt)
    requires MeasureWalk(mt, j, |out|).Some? && MeasureWalk(mt, j, |out|).value.length == cap
    ensures UnescapeWalk(pt, j, out, cap).Ok? || UnescapeWalk(pt, j, out, cap) == Err(BadEscape)
    ensures UnescapeWalk(pt, j, out, cap).Ok? <==>
      forall k: nat :: OnWalk(mt, j, k) && k < |pt| ==> pt[k] != Fail(BadEscape)
    decreases |mt| - j
  {
    assert Agrees(mt[j], pt[j]);
    match mt[j]
    case Close =>
      forall k: nat | OnWalk(mt, j, k) && k < |pt|
        ensures pt[k] != Fail(BadEscape)
      {
        assert k == j;
      }
    case Advance(c, l) =>
      if pt[j] == Fail(BadEscape) {
        assert OnWalk(mt, j, j);
      } else {
        var w := pt[j].bytes;
        assert |out + w| == |out| + l;
        WalkAgreement(mt, pt, j + c, out + w, cap);
        assert UnescapeWalk(pt, j, out, cap) == UnescapeWalk(pt, j + c, out + w, cap);
        forall k: nat | OnWalk(mt, j, k) && k < |pt| && k != j
          ensures OnWalk(mt, j + c, k)
        {
        }
        assert OnWalk(mt, j + c, j + c);
      }
  }

  /** At `k`, both loops copy the source `src` unchanged: the quote ends
      both, and an advance writes exactly the bytes it steps over. */
  predicate CopiesAt(mt: seq<Measure>, pt: seq<Piece>, src: seq<byte>, k: nat)
    requires k < |mt| == |pt|
  {
    && (mt[k] == Close ==> pt[k] == End)
    && (mt[k].Advance? ==> k + mt[k].consumed <= |src| && pt[k] == Write(mt[k].consumed, src[k..k + mt[k].consumed]))
  }

  /** Where the steps copy the source at every position a successful
      measuring walk covers, what they write is the source between the
      start and the closing quote. */
  lemma {:induction false} WrittenIsCopy(mt: seq<Measure>, pt: seq<Piece>, src: seq<byte>, j: nat, ul: nat)
    requires |mt| == |pt| == |src|
    requires MeasureWalk(mt, j, ul).Some?
    requires forall k :: j <= k < MeasureWalk(mt, j, ul).value.end ==> CopiesAt(mt, pt, src, k)
    ensures Written(pt, j) == src[j..MeasureWalk(mt, j, ul).value.end - 1]
    decreases |mt| - j
  {
    var e := MeasureWalk(mt, j, ul).value.end;
    assert CopiesAt(mt, pt, src, j);
    if mt[j].Advance? {
      var c, l := mt[j].consumed, mt[j].length;
      assert MeasureWalk(mt, j + c, ul + l) == MeasureWalk(mt, j, ul);
      assert Written(pt, j) == src[j..j + c] + Written(pt, j + c);
      WrittenIsCopy(mt, pt, src, j + c, ul + l);
      assert src[j..e - 1] == src[j..j + c] + src[j + c..e - 1];
    }
  }
}
