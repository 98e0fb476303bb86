/** Keeping S0 to the stretches where interrupts are off is not enough: a program that does so
and that some interrupt still disturbs. */
module InterruptExample {
  import opened Bits
  import opened Isa
  import opened Interrupts
  import Layout
  import Sim

  /** S0 is neither read nor written while interrupts are on. */
  ghost predicate OffWhenUsed(p: Profile, b0: State)
    requires b0.Valid()
  {
    forall n: nat :: Run(p, b0, n).Some? && Fetch(p, Run(p, b0, n).value).Some? ==>
      var i, b := Fetch(p, Run(p, b0, n).value).value, Run(p, b0, n).value;
      ReadsSystem(i, 0) || WritesS0(i) ==> !b.ie
  }

  function Sys(): Profile {
    MakeProfile(true, false, false, false, false)
  }

  /** JMPL 64 at reset, the vector, the handler at word 16, and at word 32: MTS S0,r1; STI; CLI;
  MFS r2,S0; HALT */
  function ImageWord(i: nat): u16 {
    if i == 0 then 0x0034 else if i == 1 then 64
    else if i == 2 then 0x0034 else if i == 3 then 32
    else if i == 16 then 0xD1FB else if i == 17 then 0x89FF else if i == 18 then 0x8DFA
    else if i == 19 then 0x4900 else if i == 20 then 0xCAFA else if i == 21 then 0xE8F8
    else if i == 32 then 0xC1FB else if i == 33 then 0xF8F8 else if i == 34 then 0xD0F8
    else if i == 35 then 0xD0FA else if i == 36 then 0xA7FF
    else 0
  }

  function Image(): (mem: seq<u16>)
    ensures |mem| == 0x8000 && forall i :: 0 <= i < 0x8000 ==> mem[i] == ImageWord(i)
  {
    seq(0x8000, i requires 0 <= i => ImageWord(i))
  }

  function Zeros(): seq<u16> { [0, 0, 0, 0, 0, 0, 0, 0] }

  /** The uninterrupted run. */
  function At(n: nat): (st: State)
    ensures st.Valid()
  {
    State(Zeros(), Zeros(), if n == 0 then 0 else if n < 5 then 31 + n else 36, n == 3, false, Image(), false, n >= 6, n, 0)
  }

  lemma HandlerDecodes()
    ensures var p, mem := Sys(), Image();
            && FetchAt(p, mem, 2) == Some(Jall(0, 32))
            && FetchAt(p, mem, 16) == Some(Handler()[0]) && FetchAt(p, mem, 17) == Some(Handler()[1])
            && FetchAt(p, mem, 18) == Some(Handler()[2]) && FetchAt(p, mem, 19) == Some(Handler()[3])
            && FetchAt(p, mem, 20) == Some(Handler()[4]) && FetchAt(p, mem, 21) == Some(Handler()[5])
  {
    hide Image;
  }

  lemma ProgramDecodes()
    ensures var p, mem := Sys(), Image();
            && FetchAt(p, mem, 0) == Some(Jall(0, 64))
            && FetchAt(p, mem, 32) == Some(Mts(0, 1)) && FetchAt(p, mem, 33) == Some(Sti)
            && FetchAt(p, mem, 34) == Some(Cli) && FetchAt(p, mem, 35) == Some(Mfs(2, 0))
            && FetchAt(p, mem, 36) == Some(Jmp8(-1))
  {
    hide Image;
  }

  lemma ImageIntact()
    ensures HandlerIntact(Sys(), Image(), 32)
  {
    hide Image, FetchAt, Sys;
    HandlerDecodes();
  }

  lemma {:induction false} RunIs(n: nat)
    ensures Run(Sys(), At(0), n) == Some(At(n))
  {
    hide Step, At, Sys;
    if n > 0 {
      RunIs(n - 1);
      StepIs(n - 1);
    }
  }

  function InsnAt(n: nat): Insn {
    if n == 0 then Jall(0, 64) else if n == 1 then Mts(0, 1) else if n == 2 then Sti else if n == 3 then Cli
    else if n == 4 then Mfs(2, 0) else Jmp8(-1)
  }

  lemma Fetched(n: nat)
    ensures Fetch(Sys(), At(n)) == Some(InsnAt(n)) && !Interrupted(Sys(), At(n))
  {
    hide FetchAt, Image, Sys;
    ProgramDecodes();
  }

  lemma Executed(n: nat)
    ensures Execute(Sys(), InsnAt(n), At(n).(insns := n + 1), Next(At(n).pc)) == Some(At(n + 1))
  {
    hide Image, Sys;
    assert Zeros()[0 := 0] == Zeros() && Zeros()[2 := 0] == Zeros();
  }

  lemma StepIs(n: nat)
    ensures Step(Sys(), At(n)) == Some(At(n + 1))
  {
    hide Decode, Image, Sys, Execute, Interrupted, InsnAt;
    Fetched(n);
    Executed(n);
  }

  /** The rule holds of this program, and yet it is not transparent to interrupts. */
  lemma OffWhenUsedIsNotEnough()
    ensures var p, b0 := Sys(), At(0);
            && AlwaysPlain(p, b0, 32) && OffWhenUsed(p, b0) && exists raises :: !Transparent(p, b0, raises)
  {
    hide Image, Sys, FetchAt, Step;
    var p, b0 := Sys(), At(0);
    ProgramDecodes();
    ImageIntact();
    forall n: nat ensures Run(p, b0, n) == Some(At(n)) { RunIs(n); }
    forall N: nat ensures Plain(p, b0, 32, N) {
    }
    assert Clobbered(p, b0, 3, 4);
    assert !Indifferent(p, At(4), At(3));
    assert !S0Safe(p, b0, 5);
    assert p.sysTier by { SysTier(); }
    TransparencyExact(p, b0, 32);
  }

  lemma {:induction false} BytesGive(words: seq<u16>, w: nat)
    requires w < |words|
    ensures Sim.ByteAt(Layout.EncodeWords(words), 2 * w) + 0x100 * Sim.ByteAt(Layout.EncodeWords(words), 2 * w + 1) == words[w]
  {
    if w > 0 { BytesGive(words[1..], w - 1); }
  }

  /** The run starts where a new simulator of the sys profile starts. */
  method Start() returns (sim: Sim.Sim)
    ensures sim.Valid() && sim.profile == Sys() && sim.State() == At(0)
  {
    hide ImageWord, Image, MakeProfile;
    sim := new Sim.Sim(Layout.EncodeWords(Image()), true, false, false, false, false);
    forall w | 0 <= w < 0x8000 ensures sim.mem[w] == Image()[w] {
      BytesGive(Image(), w);
    }
    assert sim.mem == Image();
  }

  lemma SysTier()
    ensures Sys().sysTier
  {
  }
}
