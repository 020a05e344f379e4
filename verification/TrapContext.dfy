/**
 The trap context (os/src/trap/context.rs:4-49): the first 37 words of the page below the trampoline,
 through which a task enters and leaves the kernel.
 */
module TrapContexts {
  import opened Bytes
  import opened Paging

  /** `TRAP_CONTEXT` as a page number. */
  const TRAP_VPN: nat := VPN_LIMIT - 2

  /** Positions in the context: `x[2]`, `x[10]`, and the fields after the registers. */
  const SP: nat := 2
  const A0: nat := 10
  const KERNEL_SATP: nat := 34
  const KERNEL_SP: nat := 35
  const TRAP_HANDLER: nat := 36
  const CONTEXT_WORDS: nat := 37

  const WORD: nat := 0x1_0000_0000_0000_0000

  /** Word `k` of a page; the same view of a frame as an array of page table entries. */
  function Word(page: Frame, k: nat): nat
    requires k < 512
  {
    Pte(page, k)
  }

  /** What fork changes in the copied context: the kernel stack, and the result of the call for the child. */
  function ForkedContext(page: Frame, stackTop: nat): Frame
  {
    SetPte(SetPte(page, KERNEL_SP, stackTop), A0, 0)
  }

  lemma ForkedWords(page: Frame, stackTop: nat, k: nat)
    requires k < 512 && stackTop < WORD
    ensures Word(ForkedContext(page, stackTop), k) == if k == 35 then stackTop else if k == 10 then 0 else Word(page, k)
  {
    hide Pte, SetPte;
    PteSet(page, KERNEL_SP, stackTop, k);
    PteSet(SetPte(page, KERNEL_SP, stackTop), A0, 0, k);
  }

  /** `app_init_context`: a program starts at `entry` with cleared registers and its stack pointer. */
  function InitWords(entry: nat, sp: nat, sstatus: nat, satp: nat, stackTop: nat, handler: nat): (ws: seq<nat>)
    ensures |ws| == CONTEXT_WORDS
  {
    Cleared(32)[SP := sp] + [sstatus, entry, satp, stackTop, handler]
  }

  function Cleared(n: nat): (s: seq<nat>)
    ensures |s| == n && forall i | 0 <= i < n :: s[i] == 0
  {
    if n == 0 then [] else Cleared(n - 1) + [0]
  }

  /** The first `n` words of a page overwritten. */
  function WithWords(page: Frame, ws: seq<nat>, n: nat): Frame
    requires n <= |ws| <= 512
  {
    if n == 0 then page else SetPte(WithWords(page, ws, n - 1), n - 1, ws[n - 1])
  }

  lemma {:induction false} WordsWritten(page: Frame, ws: seq<nat>, n: nat, k: nat)
    requires n <= |ws| <= 512 && k < 512 && forall i | 0 <= i < |ws| :: ws[i] < WORD
    ensures Word(WithWords(page, ws, n), k) == if k < n then ws[k] else Word(page, k)
  {
    hide Pte, SetPte;
    if n > 0 {
      WordsWritten(page, ws, n - 1, k);
      PteSet(WithWords(page, ws, n - 1), n - 1, ws[n - 1], k);
    }
  }

  function InitContext(page: Frame, entry: nat, sp: nat, sstatus: nat, satp: nat, stackTop: nat, handler: nat): Frame
  {
    WithWords(page, InitWords(entry, sp, sstatus, satp, stackTop, handler), CONTEXT_WORDS)
  }

  /**
   A program starts at its entry point (word 33, `sepc`) with its stack pointer in `x[2]` and all other registers
   zero; the page keeps its bytes after the context.
   */
  lemma InitialWords(page: Frame, entry: nat, sp: nat, sstatus: nat, satp: nat, stackTop: nat, handler: nat, k: nat)
    requires entry < WORD && sp < WORD && sstatus < WORD && satp < WORD && stackTop < WORD && handler < WORD && k < 512
    ensures Word(InitContext(page, entry, sp, sstatus, satp, stackTop, handler), k)
         == if k == 2 then sp else if k < 32 then 0 else if k == 32 then sstatus else if k == 33 then entry
            else if k == 34 then satp else if k == 35 then stackTop else if k == 36 then handler else Word(page, k)
  {
    hide Pte, SetPte, WithWords;
    WordsWritten(page, InitWords(entry, sp, sstatus, satp, stackTop, handler), CONTEXT_WORDS, k);
  }

  /** The eight bytes of a word, the least significant one first. */
  lemma WordBytes(page: Frame, k: nat)
    requires k < 512
    ensures Word(page, k) == page[8 * k] as int + 0x100 * page[8 * k + 1] as int + 0x1_0000 * page[8 * k + 2] as int + 0x100_0000 * page[8 * k + 3] as int
                             + 0x1_0000_0000 * page[8 * k + 4] as int + 0x100_0000_0000 * page[8 * k + 5] as int
                             + 0x1_0000_0000_0000 * page[8 * k + 6] as int + 0x100_0000_0000_0000 * page[8 * k + 7] as int
  {
    hide Get;
    GetBytes8(page, 8 * k);
  }

  /** The words through which the next trap finds the kernel. */
  ghost predicate LeadsTo(page: Frame, satp: nat, stackTop: nat, handler: nat)
  {
    Word(page, KERNEL_SATP) == satp && Word(page, KERNEL_SP) == stackTop && Word(page, TRAP_HANDLER) == handler
  }

  lemma InitLeads(page: Frame, entry: nat, sp: nat, sstatus: nat, satp: nat, stackTop: nat, handler: nat)
    requires entry < WORD && sp < WORD && sstatus < WORD && satp < WORD && stackTop < WORD && handler < WORD
    ensures LeadsTo(InitContext(page, entry, sp, sstatus, satp, stackTop, handler), satp, stackTop, handler)
  {
    hide Pte, SetPte, WithWords;
    var ws := InitWords(entry, sp, sstatus, satp, stackTop, handler);
    WordsWritten(page, ws, CONTEXT_WORDS, KERNEL_SATP);
    WordsWritten(page, ws, CONTEXT_WORDS, KERNEL_SP);
    WordsWritten(page, ws, CONTEXT_WORDS, TRAP_HANDLER);
  }

  lemma ForkedLeads(page: Frame, satp: nat, stackTop: nat, stackTop': nat, handler: nat)
    requires LeadsTo(page, satp, stackTop, handler) && stackTop' < WORD
    ensures LeadsTo(ForkedContext(page, stackTop'), satp, stackTop', handler)
  {
    hide Pte, SetPte, ForkedContext;
    ForkedWords(page, stackTop', KERNEL_SATP);
    ForkedWords(page, stackTop', KERNEL_SP);
    ForkedWords(page, stackTop', TRAP_HANDLER);
  }

  // A signed 32-bit number stored through a user pointer.

  /** `*ptr = code` for a 32-bit code: four bytes at an offset of a page. */
  function WithCode(page: Frame, offset: nat, code: int): Frame
    requires offset + 4 <= PAGE_SIZE
  {
    Put(page, offset, 4, code % 0x1_0000_0000)
  }

  lemma CodeStored(page: Frame, offset: nat, code: int)
    requires offset + 4 <= PAGE_SIZE
    ensures var r := WithCode(page, offset, code);
            code % 0x1_0000_0000 == r[offset] as int + 256 * r[offset + 1] as int + 65536 * r[offset + 2] as int + 16777216 * r[offset + 3] as int
    ensures forall i | 0 <= i < PAGE_SIZE && !(offset <= i < offset + 4) :: WithCode(page, offset, code)[i] == page[i]
  {
    PutBytes4(page, offset, code % 0x1_0000_0000);
  }
}
