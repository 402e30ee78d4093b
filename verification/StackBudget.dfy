/**
 Stack admission on the ESP32-C6 (tools/admit_esp32c6.py), the aligned carve-out of thread-local
 storage from the top of a stack (patches/zephyr-riscv-tls-alignment.patch) and the enlarged Wi-Fi
 task stack (platform/esp32c6_wifi_stack.c).

 A stack is the range [base, base + backing). Addresses are 32-bit words.
 */
module StackBudget {
  import opened Common
  import opened Division
  import opened Words

  // ----- Rounding ----------------------------------------------------------------

  function RoundDown(x: nat, a: nat): nat
    requires a >= 1
  {
    x / a * a
  }

  function RoundUp(x: nat, a: nat): nat
    requires a >= 1
  {
    (x + (a - 1)) / a * a
  }

  /** `RoundDown` is the greatest multiple not above. */
  lemma RoundDownExactly(x: nat, a: nat)
    requires a >= 1
    ensures RoundDown(x, a) <= x < RoundDown(x, a) + a
    ensures RoundDown(x, a) % a == 0
  {
    var q := x / a;
    assert x == q * a + x % a;
    MultipleOf(q, a);
  }

  lemma RoundUpExactly(x: nat, a: nat)
    requires a >= 1
    ensures x <= RoundUp(x, a) < x + a
  {
    RoundDownExactly(x + (a - 1), a);
  }

  // ----- Carving thread-local storage out of a stack -----------------------------

  datatype Carve = Carve(tls: nat, taken: nat)

  /** Where the storage goes below a stack end, and how many bytes the stack loses to it. */
  function CarveOut(end: nat, size: nat, alignment: nat): Carve
    requires alignment >= 1
  {
    var tls := RoundDown(Wrap(end - size), alignment);
    Carve(tls, Wrap(end - tls))
  }

  lemma CarveOutExactly(end: nat, size: nat, alignment: nat)
    requires alignment >= 1 && size <= end < RANGE
    ensures var c := CarveOut(end, size, alignment);
            c.tls % alignment == 0 && c.tls + c.taken == end && size <= c.taken <= size + alignment - 1
  {
    RoundDownExactly(end - size, alignment);
  }

  class Thread {
    var tls: nat

    constructor ()
      ensures tls == 0
    {
      tls := 0;
    }

    /** Places the thread's storage and returns the bytes taken from the stack. */
    method ArchTlsStackSetup(end: nat, size: nat, dataAlign: nat, bssAlign: nat) returns (taken: nat)
      requires Max(dataAlign, bssAlign) >= 1
      modifies this
      ensures Carve(tls, taken) == CarveOut(end, size, Max(dataAlign, bssAlign))
      ensures size <= end < RANGE ==>
        tls % Max(dataAlign, bssAlign) == 0 && tls + taken == end && size <= taken
    {
      var stackEnd: int := end;
      var alignment := Max(dataAlign, bssAlign);
      var pointer := RoundDown(Wrap(end - size), alignment);
      tls := pointer;
      taken := Wrap(stackEnd - pointer);
      if size <= end < RANGE {
        CarveOutExactly(end, size, alignment);
      }
    }
  }

  // ----- The budget --------------------------------------------------------------

  datatype Budget = Budget(reserve: nat, required: nat, remaining: int, pass: bool)

  /** The admission row of one stack; nothing for invalid arguments. */
  function StackBudget(backing: int, execution: int, size: int, alignment: int, overhead: int, margin: int, isr: bool)
    : (b: Option<Budget>)
    ensures b.None? <==> backing < 0 || execution < 0 || size < 0 || overhead < 0 || margin < 0 || alignment < 1
    ensures b.Some? ==> b.value.required + b.value.remaining == backing && (b.value.pass <==> b.value.remaining >= 0)
    ensures b.Some? && isr ==> b.value.reserve == 0
    ensures b.Some? && !isr ==> b.value.reserve == size + alignment - 1
    ensures b.Some? ==> b.value.required == b.value.reserve + overhead + execution + margin
    ensures b.Some? ==> (b.value.pass <==> b.value.reserve + overhead + execution + margin <= backing)
  {
    if backing < 0 || execution < 0 || size < 0 || overhead < 0 || margin < 0 || alignment < 1 then None
    else
      var reserve: nat := if isr then 0 else size + alignment - 1;
      var required := reserve + overhead + execution + margin;
      Some(Budget(reserve, required, backing - required, backing >= required))
  }

  /** A stack at `base` still holds `need` bytes once storage and overhead are taken off its end. */
  ghost predicate Holds(base: nat, backing: nat, size: nat, alignment: nat, overhead: nat, need: nat)
    requires alignment >= 1
  {
    var c := CarveOut(base + backing, size, alignment);
    base + overhead + need <= c.tls && c.tls + size <= base + backing
  }

  /** A passing thread stack keeps its execution budget and margin wherever it is placed. */
  lemma PassingStackHolds(base: nat, backing: nat, execution: nat, size: nat, alignment: nat, overhead: nat, margin: nat)
    requires alignment >= 1 && base + backing < RANGE
    requires StackBudget(backing, execution, size, alignment, overhead, margin, false).value.pass
    ensures Holds(base, backing, size, alignment, overhead, execution + margin)
    ensures CarveOut(base + backing, size, alignment).taken
         <= StackBudget(backing, execution, size, alignment, overhead, margin, false).value.reserve
  {
    CarveOutExactly(base + backing, size, alignment);
  }

  /** The reserve is not too large: a thread stack that fails falls short at some placement. */
  lemma FailingStackFallsShort(backing: nat, execution: nat, size: nat, alignment: nat, overhead: nat, margin: nat)
    returns (base: nat)
    requires alignment >= 1 && backing + size + alignment < RANGE
    requires !StackBudget(backing, execution, size, alignment, overhead, margin, false).value.pass
    ensures base + backing < RANGE
    ensures !Holds(base, backing, size, alignment, overhead, execution + margin)
  {
    // Put the end one byte short of the next aligned address above the storage.
    var q := backing / alignment + 1;
    RoundDownExactly(backing, alignment);
    var end := q * alignment + size - 1;
    assert q * alignment == RoundDown(backing, alignment) + alignment;
    base := end - backing;
    assert end - size == (q - 1) * alignment + (alignment - 1);
    Quotient(q - 1, alignment - 1, alignment);
    assert (q - 1) * alignment == q * alignment - alignment;
  }

  ghost predicate HoldsEverywhere(backing: nat, size: nat, alignment: nat, overhead: nat, need: nat)
    requires alignment >= 1
  {
    forall base: nat :: base + backing < RANGE ==> Holds(base, backing, size, alignment, overhead, need)
  }

  /** With room in the address space, a thread stack passes exactly if it holds its budget everywhere. */
  lemma PassesExactly(backing: nat, execution: nat, size: nat, alignment: nat, overhead: nat, margin: nat)
    requires alignment >= 1 && backing + size + alignment < RANGE
    ensures StackBudget(backing, execution, size, alignment, overhead, margin, false).value.pass
       <==> HoldsEverywhere(backing, size, alignment, overhead, execution + margin)
  {
    var need := execution + margin;
    if StackBudget(backing, execution, size, alignment, overhead, margin, false).value.pass {
      forall base: nat | base + backing < RANGE
        ensures Holds(base, backing, size, alignment, overhead, need)
      {
        PassingStackHolds(base, backing, execution, size, alignment, overhead, margin);
      }
    } else {
      var base := FailingStackFallsShort(backing, execution, size, alignment, overhead, margin);
    }
  }

  // ----- The Wi-Fi task stack ----------------------------------------------------

  const VENDOR_MINIMUM := 3072
  const FRAME_OVERHEAD := 99
  const MARGIN := 256

  /** The wrapper around the vendor's stack size. */
  function WrappedStackSize(vendor: nat, size: nat, dataAlign: nat, bssAlign: nat): nat {
    Wrap(RoundUp(Wrap(vendor + size + Max(dataAlign, bssAlign) - 1 + FRAME_OVERHEAD + MARGIN), 16))
  }

  /** The alignment admission works with: a missing alignment counts as 1. */
  function AdmittedAlign(dataAlign: nat, bssAlign: nat): nat {
    Max(if dataAlign == 0 then 1 else dataAlign, if bssAlign == 0 then 1 else bssAlign)
  }

  /** The backing admission computes for the wrapped Wi-Fi stack. */
  function AdmittedBacking(size: nat, alignment: nat): nat
    requires alignment >= 1
  {
    (VENDOR_MINIMUM + (size + alignment - 1) + FRAME_OVERHEAD + MARGIN + 15) / 16 * 16
  }

  /** The backing is the least multiple of 16 that holds 3072 bytes, the reserve, 99 bytes of frame and a margin of 256. */
  lemma AdmittedBackingExactly(size: nat, alignment: nat)
    requires alignment >= 1
    ensures var backing := AdmittedBacking(size, alignment);
      backing % 16 == 0 && 3427 + size + alignment - 1 <= backing < 3427 + size + alignment - 1 + 16
  {
  }

  /** Short of overflow, so is the wrapper's size, for what the vendor asks in place of 3072. */
  lemma WrappedStackExactly(vendor: nat, size: nat, dataAlign: nat, bssAlign: nat)
    requires dataAlign + bssAlign > 0 && vendor + size + Max(dataAlign, bssAlign) + 370 < RANGE
    ensures var wrapped, asked := WrappedStackSize(vendor, size, dataAlign, bssAlign),
                                  vendor + size + Max(dataAlign, bssAlign) - 1 + 355;
      wrapped % 16 == 0 && asked <= wrapped < asked + 16
  {
    var asked := vendor + size + Max(dataAlign, bssAlign) - 1 + 355;
    RoundUpExactly(asked, 16);
    RoundDownExactly(asked + 15, 16);
  }

  /** The overhead admission computes from the generated frame size. */
  function Overhead(frame: nat, sentinel: bool): nat {
    frame + 15 + if sentinel then 4 else 0
  }

  /**
   Short of overflow, the wrapper returns what admission computes unless no thread-local
   alignment is linked at all and the total admission asks for is one past a multiple of 16.
   */
  lemma WrapperAgreesExactly(size: nat, dataAlign: nat, bssAlign: nat)
    requires size + AdmittedAlign(dataAlign, bssAlign) + 3442 < RANGE
    ensures WrappedStackSize(3072, size, dataAlign, bssAlign)
            == AdmittedBacking(size, AdmittedAlign(dataAlign, bssAlign))
       <==> dataAlign + bssAlign > 0 || size % 16 != 14
  {
  }

  /** Storage that is linked has an alignment, so the wrapper returns what admission computes. */
  lemma WrapperMatchesAdmission(size: nat, dataAlign: nat, bssAlign: nat)
    requires size > 0 ==> dataAlign + bssAlign > 0
    requires size + AdmittedAlign(dataAlign, bssAlign) + 3442 < RANGE
    ensures WrappedStackSize(3072, size, dataAlign, bssAlign)
         == AdmittedBacking(size, AdmittedAlign(dataAlign, bssAlign))
  {
    WrapperAgreesExactly(size, dataAlign, bssAlign);
  }

  /** The slack that rounding to 16 leaves in the admitted backing. */
  function Slack(size: nat, alignment: nat): (s: nat)
    requires alignment >= 1
    ensures s < 16
  {
    AdmittedBacking(size, alignment) - (VENDOR_MINIMUM + (size + alignment - 1) + FRAME_OVERHEAD + MARGIN)
  }

  /** The Wi-Fi row passes exactly if the overhead stays within the reserved bytes and the rounding slack. */
  lemma WifiRowPasses(size: nat, alignment: nat, overhead: nat)
    requires alignment >= 1
    ensures StackBudget(AdmittedBacking(size, alignment), 3072, size, alignment, overhead, 256, false).value.pass
       <==> overhead <= 99 + Slack(size, alignment)
  {
  }

  ghost predicate AlwaysAdmitted(overhead: nat) {
    forall size: nat, alignment: nat | alignment >= 1 ::
      StackBudget(AdmittedBacking(size, alignment), 3072, size, alignment, overhead, 256, false).value.pass
  }

  /** It passes for every linked storage exactly if the overhead is at most the reserved bytes. */
  lemma WifiAlwaysAdmittedExactly(frame: nat, sentinel: bool)
    ensures AlwaysAdmitted(Overhead(frame, sentinel)) <==> frame <= if sentinel then 80 else 84
  {
    var overhead := Overhead(frame, sentinel);
    if overhead <= 99 {
      forall size: nat, alignment: nat | alignment >= 1
        ensures StackBudget(AdmittedBacking(size, alignment), 3072, size, alignment, overhead, 256, false).value.pass
      {
        WifiRowPasses(size, alignment, overhead);
      }
    } else {
      WifiRowPasses(13, 1, overhead);
      assert AdmittedBacking(13, 1) == 3440;
      assert !StackBudget(AdmittedBacking(13, 1), 3072, 13, 1, overhead, 256, false).value.pass;
    }
  }

  /** End to end: whatever size the vendor asks for, the wrapped stack still holds it plus the margin. */
  lemma WrappedStackHoldsVendorBudget(vendor: nat, size: nat, dataAlign: nat, bssAlign: nat, base: nat, overhead: nat)
    requires dataAlign + bssAlign > 0 && overhead <= 99
    requires vendor + size + Max(dataAlign, bssAlign) + 370 < RANGE
    requires base + WrappedStackSize(vendor, size, dataAlign, bssAlign) < RANGE
    ensures Holds(base, WrappedStackSize(vendor, size, dataAlign, bssAlign), size, Max(dataAlign, bssAlign), overhead,
                  vendor + 256)
  {
    var backing := WrappedStackSize(vendor, size, dataAlign, bssAlign);
    var asked := vendor + size + Max(dataAlign, bssAlign) - 1 + FRAME_OVERHEAD + MARGIN;
    RoundUpExactly(asked, 16);
    assert backing >= asked;
    PassingStackHolds(base, backing, vendor, size, Max(dataAlign, bssAlign), overhead, 256);
  }
}
