/** Processor state and the 15-word frame that irq0 saves, process_create fabricates and the
    scheduler hands over by its address. */
module Frames {
  import opened Bytes
  import opened Seqs

  datatype Cpu = Cpu(eax: uint32, ecx: uint32, edx: uint32, ebx: uint32, esp: uint32, ebp: uint32,
                     esi: uint32, edi: uint32, eip: uint32, eflags: uint32,
                     cs: uint16, ds: uint16, es: uint16, fs: uint16, gs: uint16)

  const FRAME_WORDS := 15
  const FRAME_BYTES := 60

  /** Memory after pushing ws in order onto a stack whose pointer is sp. */
  function PushAll(m: Mem, sp: int, ws: seq<uint32>): (r: Mem)
    ensures |r| == |m|
    decreases |ws|
  {
    if ws == [] then m else PushAll(PutWord(m, sp - 4, ws[0]), sp - 4, ws[1..])
  }

  /** The n words popped from a stack whose pointer is sp. */
  function PopAll(m: Mem, sp: int, n: nat): (ws: seq<uint32>)
    ensures |ws| == n
    decreases n
  {
    if n == 0 then [] else [Word(m, sp)] + PopAll(m, sp + 4, n - 1)
  }

  lemma {:induction false} PushAllOutside(m: Mem, sp: int, ws: seq<uint32>)
    ensures SameOutside(m, PushAll(m, sp, ws), sp - 4 * |ws|, sp)
    decreases |ws|
  {
    hide PutWord;
    if ws != [] {
      PutWordSpec(m, sp - 4, ws[0]);
      PushAllOutside(PutWord(m, sp - 4, ws[0]), sp - 4, ws[1..]);
    }
  }

  lemma {:induction false} PopAllSame(m: Mem, m': Mem, sp: int, n: nat)
    requires SameOn(m, m', sp, sp + 4 * n)
    ensures PopAll(m, sp, n) == PopAll(m', sp, n)
    decreases n
  {
    hide Word;
    if n > 0 {
      WordSame(m, m', sp);
      PopAllSame(m, m', sp + 4, n - 1);
    }
  }

  lemma {:induction false} PopAllLast(m: Mem, sp: int, n: nat)
    ensures PopAll(m, sp, n + 1) == PopAll(m, sp, n) + [Word(m, sp + 4 * n)]
    decreases n
  {
    hide Word;
    if n > 0 {
      PopAllLast(m, sp + 4, n - 1);
    }
  }

  lemma PushStep(m: Mem, sp: int, ws: seq<uint32>)
    requires ws != []
    ensures PushAll(m, sp, ws) == PushAll(PutWord(m, sp - 4, ws[0]), sp - 4, ws[1..])
  {
    hide PutWord;
  }

  lemma PopNothing(m: Mem, sp: int)
    ensures PopAll(m, sp, 0) == []
  {
  }

  /** Popping gives back what was pushed, last first. */
  lemma {:induction false} PopPush(m: Mem, sp: int, ws: seq<uint32>)
    requires 0 <= sp - 4 * |ws| && sp <= |m|
    ensures PopAll(PushAll(m, sp, ws), sp - 4 * |ws|, |ws|) == Reversed(ws)
    decreases |ws|
  {
    hide Word, PutWord, PushAll, PopAll;
    if ws == [] {
      PopNothing(m, sp);
    } else {
      var m1 := PutWord(m, sp - 4, ws[0]);
      var r := PushAll(m1, sp - 4, ws[1..]);
      PushStep(m, sp, ws);
      PopPush(m1, sp - 4, ws[1..]);
      PopAllLast(r, sp - 4 * |ws|, |ws| - 1);
      PutWordSpec(m, sp - 4, ws[0]);
      PushAllOutside(m1, sp - 4, ws[1..]);
      WordSame(m1, r, sp - 4);
    }
  }

  /** The words pushed when a timer interrupt arrives: the processor pushes EFLAGS, CS and EIP,
      pushad the general registers (with the stack pointer as pushad found it), then ds to gs. */
  function SavedWords(c: Cpu): (ws: seq<uint32>)
    ensures |ws| == FRAME_WORDS
  {
    [c.eflags, c.cs, c.eip,
     c.eax, c.ecx, c.edx, c.ebx, Wrap32(c.esp - 12), c.ebp, c.esi, c.edi,
     c.ds, c.es, c.fs, c.gs]
  }

  /** The words process_create pushes for a process that is to start at entry. */
  function InitialWords(entry: uint32): (ws: seq<uint32>)
    ensures |ws| == FRAME_WORDS
  {
    [0x202, 0x10, entry, 0, 0, 0, 0, 0, 0, 0, 0, 0x10, 0x10, 0x10, 0x10]
  }

  /** What pop gs/fs/es/ds, popad (which skips its stack-pointer word) and iret load from sp. */
  function Restore(m: Mem, sp: uint32): Cpu {
    var w := PopAll(m, sp, FRAME_WORDS);
    Cpu(w[11], w[10], w[9], w[8], Wrap32(sp + FRAME_BYTES), w[6], w[5], w[4], w[12], w[14],
        w[13] % 0x1_0000, w[3] % 0x1_0000, w[2] % 0x1_0000, w[1] % 0x1_0000, w[0] % 0x1_0000)
  }

  /** The processor on the first turn of a process: zero general registers, kernel selectors 0x10,
      interrupts enabled, an empty stack. */
  function InitialCpu(entry: uint32, top: uint32): Cpu {
    Cpu(0, 0, 0, 0, top, 0, 0, 0, entry, 0x202, 0x10, 0x10, 0x10, 0x10, 0x10)
  }

  /** Saving and restoring gives back the whole processor state, stack pointer included. */
  lemma RestoreSaved(m: Mem, c: Cpu)
    requires FRAME_BYTES <= c.esp <= |m|
    ensures Restore(PushAll(m, c.esp, SavedWords(c)), c.esp - FRAME_BYTES) == c
  {
    hide PushAll, PopAll, Reversed;
    PopPush(m, c.esp, SavedWords(c));
    ReversedAll(SavedWords(c));
  }

  lemma RestoreInitial(m: Mem, entry: uint32, top: uint32)
    requires FRAME_BYTES <= top <= |m|
    ensures Restore(PushAll(m, top, InitialWords(entry)), top - FRAME_BYTES) == InitialCpu(entry, top)
    ensures var c := Restore(PushAll(m, top, InitialWords(entry)), top - FRAME_BYTES);
      && c.eip == entry && c.esp == top && c.eflags == 0x202
      && c.cs == c.ds == c.es == c.fs == c.gs == 0x10
      && c.eax == c.ecx == c.edx == c.ebx == c.ebp == c.esi == c.edi == 0
  {
    hide PushAll, PopAll, Reversed;
    PopPush(m, top, InitialWords(entry));
    ReversedAll(InitialWords(entry));
  }

  lemma RestoreSame(m: Mem, m': Mem, sp: uint32)
    requires SameOn(m, m', sp, sp + FRAME_BYTES)
    ensures Restore(m, sp) == Restore(m', sp)
  {
    PopAllSame(m, m', sp, FRAME_WORDS);
  }

  // ---------- The frame, word by word ----------

  lemma {:induction false} PopAllAt(m: Mem, sp: int, n: nat, i: nat)
    requires i < n
    ensures PopAll(m, sp, n)[i] == Word(m, sp + 4 * i)
    decreases n
  {
    hide Word;
    if i > 0 {
      PopAllAt(m, sp + 4, n - 1, i - 1);
    }
  }

  /** What lies where on the stack once a timer interrupt has been taken: EFLAGS, CS and EIP, then the
      general registers from eax down to edi, with the stack pointer as pushad found it, then the segment
      registers. */
  lemma SavedLayout(m: Mem, c: Cpu)
    requires 60 <= c.esp <= |m|
    ensures var r := PushAll(m, c.esp, SavedWords(c));
      && Word(r, c.esp - 4) == c.eflags && Word(r, c.esp - 8) == c.cs && Word(r, c.esp - 12) == c.eip
      && Word(r, c.esp - 16) == c.eax && Word(r, c.esp - 20) == c.ecx
      && Word(r, c.esp - 24) == c.edx && Word(r, c.esp - 28) == c.ebx
      && Word(r, c.esp - 32) == c.esp - 12 && Word(r, c.esp - 36) == c.ebp
      && Word(r, c.esp - 40) == c.esi && Word(r, c.esp - 44) == c.edi
      && Word(r, c.esp - 48) == c.ds && Word(r, c.esp - 52) == c.es
      && Word(r, c.esp - 56) == c.fs && Word(r, c.esp - 60) == c.gs
  {
    hide Word, PushAll;
    SavedWordAt(m, c, 0);
    SavedWordAt(m, c, 1);
    SavedWordAt(m, c, 2);
    SavedWordAt(m, c, 3);
    SavedWordAt(m, c, 4);
    SavedWordAt(m, c, 5);
    SavedWordAt(m, c, 6);
    SavedWordAt(m, c, 7);
    SavedWordAt(m, c, 8);
    SavedWordAt(m, c, 9);
    SavedWordAt(m, c, 10);
    SavedWordAt(m, c, 11);
    SavedWordAt(m, c, 12);
    SavedWordAt(m, c, 13);
    SavedWordAt(m, c, 14);
  }

  lemma SavedWordAt(m: Mem, c: Cpu, i: nat)
    requires 60 <= c.esp <= |m| && i < 15
    ensures Word(PushAll(m, c.esp, SavedWords(c)), c.esp - 4 - 4 * i) == SavedWords(c)[i]
  {
    hide Word, PushAll, PopAll, Reversed, SavedWords;
    PopPush(m, c.esp, SavedWords(c));
    ReversedAll(SavedWords(c));
    PopAllAt(PushAll(m, c.esp, SavedWords(c)), c.esp - 60, 15, 14 - i);
  }

  /** Where the pops and iret find what they load; the stack pointer ends up 60 bytes on. */
  lemma RestoreLayout(m: Mem, sp: uint32)
    requires sp + 60 < 0x1_0000_0000
    ensures Restore(m, sp) == Cpu(Word(m, sp + 44), Word(m, sp + 40), Word(m, sp + 36), Word(m, sp + 32), sp + 60,
                                  Word(m, sp + 24), Word(m, sp + 20), Word(m, sp + 16), Word(m, sp + 48), Word(m, sp + 56),
                                  Word(m, sp + 52) % 0x1_0000, Word(m, sp + 12) % 0x1_0000, Word(m, sp + 8) % 0x1_0000,
                                  Word(m, sp + 4) % 0x1_0000, Word(m, sp) % 0x1_0000)
  {
    hide Word, PopAll;
    forall i | 0 <= i < 15 ensures PopAll(m, sp, 15)[i] == Word(m, sp + 4 * i) {
      PopAllAt(m, sp, 15, i);
    }
  }
}
