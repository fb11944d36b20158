/** The pre-OS eRoT grant handshake of the AD102 bus interface: the driver asks
    the external root of trust (eRoT) to hand the EEPROM over, through the one
    register NV_PBUS_SW_GLOBAL_EROT_GRANT, and polls until the grant arrives or
    the deadline passes. */
module ErotGrant {
  import opened NvTypes

  /* Where the VALID, ALLOW and REQUEST fields of the grant register sit. Each
     field is a mask together with the in-place value of the named constant
     (VALID_NO, ALLOW_YES, REQUEST_SET). The bit positions come from the chip's
     register headers, which are not part of this model: the constants are left
     unspecified, and every property below holds for any values that satisfy
     LayoutWellFormed. */
  const ValidMask: bv32
  const ValidNo: bv32
  const AllowMask: bv32
  const AllowYes: bv32
  const RequestMask: bv32
  const RequestSet: bv32

  /** The three fields are disjoint and each constant lies inside its field. */
  predicate LayoutWellFormed() {
    && ValidMask & AllowMask == 0
    && ValidMask & RequestMask == 0
    && AllowMask & RequestMask == 0
    && ValidNo & !ValidMask == 0
    && AllowYes & !AllowMask == 0
    && RequestSet & !RequestMask == 0
  }

  /** FLD_TEST_DRF(..., _VALID, _NO, reg): the register says no eRoT is present. */
  predicate ErotAbsent(reg: bv32) {
    reg & ValidMask == ValidNo
  }

  /** FLD_TEST_DRF(..., _ALLOW, _YES, reg): the verdict of the poll predicate
      on one value read from the register. */
  predicate GrantAllowed(reg: bv32) {
    reg & AllowMask == AllowYes
  }

  /** FLD_SET_DRF(..., _REQUEST, _SET, reg). */
  function WithRequestSet(reg: bv32): bv32 {
    (reg & !RequestMask) | RequestSet
  }

  /** Setting a field to a value inside its mask puts that value in the field ... */
  lemma SetFieldPutsValue(reg: bv32, mask: bv32, value: bv32)
    requires value & !mask == 0
    ensures ((reg & !mask) | value) & mask == value
  {
  }

  /** ... keeps every bit outside the field ... */
  lemma SetFieldKeepsOtherBits(reg: bv32, mask: bv32, value: bv32)
    ensures ((reg & !mask) | value) & !mask == (reg & !mask) | (value & !mask)
  {
  }

  /** ... and so keeps any field disjoint from it. */
  lemma SetFieldKeepsDisjointField(reg: bv32, mask: bv32, value: bv32, other: bv32)
    requires value & !mask == 0
    requires other & mask == 0
    ensures ((reg & !mask) | value) & other == reg & other
  {
  }

  /** Setting REQUEST makes the REQUEST field SET ... */
  lemma WithRequestSetPutsSet(reg: bv32)
    requires LayoutWellFormed()
    ensures WithRequestSet(reg) & RequestMask == RequestSet
  {
    SetFieldPutsValue(reg, RequestMask, RequestSet);
  }

  /** ... and keeps every bit outside the REQUEST field ... */
  lemma WithRequestSetKeepsOtherBits(reg: bv32)
    requires LayoutWellFormed()
    ensures WithRequestSet(reg) & !RequestMask == reg & !RequestMask
  {
    SetFieldKeepsOtherBits(reg, RequestMask, RequestSet);
  }

  /** ... so in particular the VALID field ... */
  lemma WithRequestSetKeepsValid(reg: bv32)
    requires LayoutWellFormed()
    ensures WithRequestSet(reg) & ValidMask == reg & ValidMask
  {
    SetFieldKeepsDisjointField(reg, RequestMask, RequestSet, ValidMask);
  }

  /** ... and the ALLOW field. */
  lemma WithRequestSetKeepsAllow(reg: bv32)
    requires LayoutWellFormed()
    ensures WithRequestSet(reg) & AllowMask == reg & AllowMask
  {
    SetFieldKeepsDisjointField(reg, RequestMask, RequestSet, AllowMask);
  }

  /** The poll predicate looks at the ALLOW field and nothing else. */
  lemma GrantAllowedReadsOnlyAllowField(a: bv32, b: bv32)
    requires a & AllowMask == b & AllowMask
    ensures GrantAllowed(a) == GrantAllowed(b)
  {
  }

  /** Setting REQUEST changes neither the VALID verdict ... */
  lemma RequestKeepsValidVerdict(reg: bv32)
    requires LayoutWellFormed()
    ensures ErotAbsent(WithRequestSet(reg)) == ErotAbsent(reg)
  {
    WithRequestSetKeepsValid(reg);
  }

  /** ... nor the ALLOW verdict. */
  lemma RequestKeepsAllowVerdict(reg: bv32)
    requires LayoutWellFormed()
    ensures GrantAllowed(WithRequestSet(reg)) == GrantAllowed(reg)
  {
    WithRequestSetKeepsAllow(reg);
  }

  /** The values the poll read, in order, when the deadline allows `ticks`
      re-evaluations after the first: it stops at the first value whose ALLOW
      field is YES, and otherwise after 1 + ticks evaluations. */
  predicate IsPollTrace(polls: seq<bv32>, ticks: nat) {
    && 1 <= |polls| <= ticks + 1
    && (forall i :: 0 <= i < |polls| - 1 ==> !GrantAllowed(polls[i]))
    && (|polls| <= ticks ==> GrantAllowed(polls[|polls| - 1]))
  }

  /** What the poll returns: the verdict of its last evaluation. It is NV_OK
      exactly when some read saw ALLOW=YES, and otherwise NV_ERR_TIMEOUT after
      the whole deadline was spent. */
  function PollStatus(polls: seq<bv32>, ticks: nat): (s: Status)
    requires IsPollTrace(polls, ticks)
    ensures s == Ok <==> exists i :: 0 <= i < |polls| && GrantAllowed(polls[i])
    ensures s != Ok ==> s == ErrTimeout && |polls| == ticks + 1
  {
    if GrantAllowed(polls[|polls| - 1]) then Ok else ErrTimeout
  }

  /** Reference definition of the poll: given the values the register would
      show at successive reads (the eRoT's behaviour), the values the poll
      actually reads. */
  function PollReads(shown: seq<bv32>, ticks: nat): (polls: seq<bv32>)
    requires |shown| > ticks
    ensures polls <= shown
    ensures IsPollTrace(polls, ticks)
    decreases ticks
  {
    if ticks == 0 || GrantAllowed(shown[0]) then [shown[0]]
    else [shown[0]] + PollReads(shown[1..], ticks - 1)
  }

  /** A poll trace is determined by what the register shows: every trace that
      is a prefix of the shown values is the one the reference computes. */
  lemma {:induction false} PollTraceIsPollReads(polls: seq<bv32>, shown: seq<bv32>, ticks: nat)
    requires |shown| > ticks
    requires polls <= shown
    requires IsPollTrace(polls, ticks)
    ensures polls == PollReads(shown, ticks)
    decreases ticks
  {
    if ticks == 0 || GrantAllowed(shown[0]) {
      assert |polls| == 1;
    } else {
      assert !GrantAllowed(polls[0]);
      assert |polls| > 1;
      var rest := polls[1..];
      assert forall i :: 0 <= i < |rest| - 1 ==> rest[i] == polls[i + 1];
      PollTraceIsPollReads(rest, shown[1..], ticks - 1);
      assert polls == [polls[0]] + rest;
    }
  }

  /** The poll sees only the ALLOW verdicts of what the register shows: two
      registers that agree on them read equally often and give the same
      status. */
  lemma {:induction false} PollReadsSameVerdicts(s1: seq<bv32>, s2: seq<bv32>, ticks: nat)
    requires |s1| == |s2| > ticks
    requires forall i :: 0 <= i < |s1| ==> GrantAllowed(s1[i]) == GrantAllowed(s2[i])
    ensures |PollReads(s1, ticks)| == |PollReads(s2, ticks)|
    ensures PollStatus(PollReads(s1, ticks), ticks) == PollStatus(PollReads(s2, ticks), ticks)
  {
  }

  /** The conceptual state the first two reads classify the grant into. */
  datatype GrantState = NoAgentPresent | AlreadyGranted | PendingGrant

  /** The values kbifPreOsGlobalErotGrantRequest reads, in order: the register
      (line 56); if an eRoT is present, the register again inside the grant
      predicate (line 65); if that did not show the grant, the poll's reads. */
  predicate IsGrantTrace(rd: seq<bv32>, ticks: nat) {
    && |rd| >= 1
    && if ErotAbsent(rd[0]) then |rd| == 1
       else && |rd| >= 2
            && if GrantAllowed(rd[1]) then |rd| == 2 else IsPollTrace(rd[2..], ticks)
  }

  /** The state a trace was classified into shows in its length: one read
      when there is no eRoT, two when the grant was already in place, and
      at least three (the poll reads at least once) otherwise. */
  function Classify(rd: seq<bv32>, ticks: nat): (g: GrantState)
    requires IsGrantTrace(rd, ticks)
    ensures g == NoAgentPresent <==> |rd| == 1
    ensures g == AlreadyGranted <==> |rd| == 2
    ensures g == PendingGrant <==> |rd| >= 3
  {
    if ErotAbsent(rd[0]) then NoAgentPresent
    else if GrantAllowed(rd[1]) then AlreadyGranted
    else PendingGrant
  }

  /** What one call returns and which values it writes to the register. */
  datatype GrantRun = GrantRun(status: Status, writes: seq<bv32>)

  /** The outcome of one grant request, as a function of what it read. The
      written value is built from the FIRST read, not from the re-read the
      predicate makes. As documented, the request returns NV_OK or
      NV_ERR_TIMEOUT and nothing else; it writes the register at most once,
      and always once before it times out. */
  function GrantRequestOutcome(rd: seq<bv32>, ticks: nat): (r: GrantRun)
    requires IsGrantTrace(rd, ticks)
    ensures r.status == Ok || r.status == ErrTimeout
    ensures |r.writes| <= 1
    ensures r.status == ErrTimeout ==> |r.writes| == 1
  {
    match Classify(rd, ticks)
    case NoAgentPresent => GrantRun(Ok, [])
    case AlreadyGranted => GrantRun(Ok, [])
    case PendingGrant => GrantRun(PollStatus(rd[2..], ticks), [WithRequestSet(rd[0])])
  }

  /** With no eRoT the request succeeds after one read and writes nothing. */
  lemma NoErotMeansNoWrite(rd: seq<bv32>, ticks: nat)
    requires IsGrantTrace(rd, ticks)
    requires ErotAbsent(rd[0])
    ensures rd == [rd[0]]
    ensures GrantRequestOutcome(rd, ticks) == GrantRun(Ok, [])
  {
  }

  /** When the re-read shows the grant, the request succeeds after two reads
      and writes nothing: no second request reaches the eRoT. */
  lemma AlreadyGrantedMeansNoWrite(rd: seq<bv32>, ticks: nat)
    requires IsGrantTrace(rd, ticks)
    requires !ErotAbsent(rd[0]) && GrantAllowed(rd[1])
    ensures |rd| == 2
    ensures GrantRequestOutcome(rd, ticks) == GrantRun(Ok, [])
  {
  }

  /** Otherwise the request writes exactly once, and what it writes is the
      FIRST value read with REQUEST set (WithRequestSetPutsSet and
      WithRequestSetKeepsOtherBits say what that value holds). A call that
      follows a timeout issues the request afresh. */
  lemma PendingGrantWritesOnce(rd: seq<bv32>, ticks: nat)
    requires IsGrantTrace(rd, ticks)
    requires !ErotAbsent(rd[0]) && !GrantAllowed(rd[1])
    ensures GrantRequestOutcome(rd, ticks).writes == [WithRequestSet(rd[0])]
  {
  }

  /** How the reads of a request that finds no eRoT make its outcome. */
  lemma NoErotOutcome(first: bv32, ticks: nat)
    requires ErotAbsent(first)
    ensures IsGrantTrace([first], ticks)
    ensures GrantRequestOutcome([first], ticks) == GrantRun(Ok, [])
  {
  }

  /** How the reads of a request that finds the grant in place make its
      outcome. */
  lemma AlreadyGrantedOutcome(first: bv32, second: bv32, ticks: nat)
    requires !ErotAbsent(first) && GrantAllowed(second)
    ensures IsGrantTrace([first, second], ticks)
    ensures GrantRequestOutcome([first, second], ticks) == GrantRun(Ok, [])
  {
  }

  /** How a pending request's reads combine into its outcome. */
  lemma PendingOutcome(first: bv32, second: bv32, polls: seq<bv32>, ticks: nat)
    requires !ErotAbsent(first) && !GrantAllowed(second)
    requires IsPollTrace(polls, ticks)
    ensures IsGrantTrace([first, second] + polls, ticks)
    ensures GrantRequestOutcome([first, second] + polls, ticks)
            == GrantRun(PollStatus(polls, ticks), [WithRequestSet(first)])
  {
    assert ([first, second] + polls)[2..] == polls;
  }

  /** The request succeeds exactly when there is no eRoT or some read after
      the first saw ALLOW=YES; otherwise it times out, having spent the whole
      deadline, after its single write. */
  lemma {:induction false} GrantOkIffAllowSeen(rd: seq<bv32>, ticks: nat)
    requires IsGrantTrace(rd, ticks)
    ensures var r := GrantRequestOutcome(rd, ticks);
      r.status == Ok <==> ErotAbsent(rd[0]) || exists i :: 1 <= i < |rd| && GrantAllowed(rd[i])
    ensures var r := GrantRequestOutcome(rd, ticks);
      r.status != Ok ==> r.status == ErrTimeout && |r.writes| == 1 && |rd| == ticks + 3
  {
    if !ErotAbsent(rd[0]) && !GrantAllowed(rd[1]) {
      var polls := rd[2..];
      if exists i :: 1 <= i < |rd| && GrantAllowed(rd[i]) {
        var i :| 1 <= i < |rd| && GrantAllowed(rd[i]);
        assert polls[i - 2] == rd[i];
      }
      if exists j :: 0 <= j < |polls| && GrantAllowed(polls[j]) {
        var j :| 0 <= j < |polls| && GrantAllowed(polls[j]);
        assert rd[j + 2] == polls[j];
      }
    }
  }

  /** Calling the request again once the grant is in place, while the eRoT
      leaves the register alone, is a no-op: two reads, success, no write. */
  lemma RequestAfterGrantIsNoOp(v: bv32, ticks: nat)
    requires GrantAllowed(v)
    ensures ErotAbsent(v) ==> IsGrantTrace([v], ticks)
    ensures !ErotAbsent(v) ==> IsGrantTrace([v, v], ticks)
    ensures GrantRequestOutcome(if ErotAbsent(v) then [v] else [v, v], ticks) == GrantRun(Ok, [])
  {
  }

  /** The GPU's view of the grant register. Every read may return any value,
      because the eRoT can change the register at any moment; the two logs
      record what the driver read and wrote, oldest first. */
  class Gpu {
    var erotGrant: bv32
    ghost var readLog: seq<bv32>
    ghost var writeLog: seq<bv32>

    constructor (initial: bv32)
      ensures erotGrant == initial && readLog == [] && writeLog == []
    {
      erotGrant := initial;
      readLog, writeLog := [], [];
    }

    /** GPU_REG_RD32 of NV_PBUS_SW_GLOBAL_EROT_GRANT. */
    method ReadErotGrant() returns (v: bv32)
      modifies this
      ensures v == erotGrant
      ensures readLog == old(readLog) + [v] && writeLog == old(writeLog)
    {
      erotGrant := *;  // whatever the eRoT has done since the last access
      v := erotGrant;
      readLog := readLog + [v];
    }

    /** GPU_REG_WR32 of NV_PBUS_SW_GLOBAL_EROT_GRANT. */
    method WriteErotGrant(v: bv32)
      modifies this
      ensures erotGrant == v
      ensures writeLog == old(writeLog) + [v] && readLog == old(readLog)
    {
      erotGrant := v;
      writeLog := writeLog + [v];
    }

    /** _kbifPreOsCheckErotGrantAllowed_AD102: re-reads the register on every
        evaluation and tests its ALLOW field. */
    method PreOsCheckErotGrantAllowed() returns (allowed: bool)
      modifies this
      ensures |readLog| == |old(readLog)| + 1 && old(readLog) <= readLog
      ensures allowed == GrantAllowed(readLog[|old(readLog)|])
      ensures writeLog == old(writeLog)
    {
      var reg := ReadErotGrant();
      allowed := GrantAllowed(reg);
    }

    /** gpuTimeoutCondWait with the grant predicate: one evaluation, then one
        more per tick of the deadline until the predicate holds. */
    method TimeoutCondWaitGrantAllowed(ticks: nat) returns (status: Status)
      modifies this
      ensures old(readLog) <= readLog && writeLog == old(writeLog)
      ensures IsPollTrace(readLog[|old(readLog)|..], ticks)
      ensures status == PollStatus(readLog[|old(readLog)|..], ticks)
    {
      ghost var start := |readLog|;
      var allowed := PreOsCheckErotGrantAllowed();
      var elapsed := 0;
      while !allowed && elapsed < ticks
        invariant 0 <= elapsed <= ticks
        invariant old(readLog) <= readLog && |readLog| == start + elapsed + 1
        invariant writeLog == old(writeLog)
        invariant forall i :: start <= i < |readLog| - 1 ==> !GrantAllowed(readLog[i])
        invariant allowed == GrantAllowed(readLog[|readLog| - 1])
      {
        elapsed := elapsed + 1;
        allowed := PreOsCheckErotGrantAllowed();
      }
      status := if allowed then Ok else ErrTimeout;
      ghost var polls := readLog[start..];
      assert forall i :: 0 <= i < |polls| ==> polls[i] == readLog[start + i];
    }

    /** Lines 70-79 of kbifPreOsGlobalErotGrantRequest_AD102: write the value
        first read back with REQUEST set, then wait for the grant. */
    method RequestGrantAndWait(reg: bv32, ticks: nat) returns (status: Status)
      modifies this
      ensures old(readLog) <= readLog
      ensures writeLog == old(writeLog) + [WithRequestSet(reg)]
      ensures IsPollTrace(readLog[|old(readLog)|..], ticks)
      ensures status == PollStatus(readLog[|old(readLog)|..], ticks)
    {
      var request := WithRequestSet(reg);
      WriteErotGrant(request);
      status := TimeoutCondWaitGrantAllowed(ticks);
    }

    /** kbifPreOsGlobalErotGrantRequest_AD102: the values it reads are `rd`,
        and what it writes and returns is GrantRequestOutcome of them. */
    method PreOsGlobalErotGrantRequest(ticks: nat) returns (status: Status, ghost rd: seq<bv32>)
      modifies this
      ensures readLog == old(readLog) + rd
      ensures IsGrantTrace(rd, ticks)
      ensures writeLog == old(writeLog) + GrantRequestOutcome(rd, ticks).writes
      ensures status == GrantRequestOutcome(rd, ticks).status
    {
      status := Ok;
      var reg := ReadErotGrant();
      if ErotAbsent(reg) {
        rd := [reg];
        NoErotOutcome(reg, ticks);
        return;
      }
      var allowed := PreOsCheckErotGrantAllowed();
      ghost var second := readLog[|readLog| - 1];
      if allowed {
        rd := [reg, second];
        assert readLog == old(readLog) + rd;
        AlreadyGrantedOutcome(reg, second, ticks);
        return;
      }
      ghost var mid := |readLog|;
      status := RequestGrantAndWait(reg, ticks);
      ghost var polls := readLog[mid..];
      rd := [reg, second] + polls;
      assert readLog == old(readLog) + rd;
      PendingOutcome(reg, second, polls, ticks);
    }
  }
}
