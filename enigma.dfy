/**
 * The Enigma machine (`src/cipher/electromechanical/enigma.rs`): before each
 * letter the rotors step (rotor 0 always, with the middle rotor's double
 * step), then the letter goes through the plugboard, the rotors from 0
 * upwards, the reflector, the rotors back down, and the plugboard again.
 * Every such pass is an involution without fixed points, so running a
 * message twice from the same start state gives it back.
 */
module Enigmas {
  import opened Permutations
  import opened LangAlphabets
  import opened Languages
  import opened Letterwise
  import opened Rotors
  import opened Reflectors
  import opened Plugboards

  /** What a rotor contributes to the machine: its wiring and its two positions. */
  datatype RotorState = RotorState(wiringType: RotorType, grund: int, rings: int)

  /** A rotor after `step`. */
  function Turned(r: RotorState): RotorState {
    r.(grund := Stepped(r.grund, 1))
  }

  /** A rotor's `is_on_notch`. */
  predicate AtNotch(r: RotorState) {
    OnNotch(r.wiringType, r.grund)
  }

  /**
   * `step_rotors`: with the middle rotor on its notch, it and the left
   * rotor step; otherwise the middle rotor steps when the right one is on
   * its notch; the right rotor always steps. Its assertion demands three
   * rotors.
   */
  function SteppedRotors(rs: seq<RotorState>): (r: seq<RotorState>)
    requires |rs| >= 3
    ensures |r| == |rs|
  {
    if AtNotch(rs[1]) then rs[0 := Turned(rs[0])][1 := Turned(rs[1])][2 := Turned(rs[2])]
    else if AtNotch(rs[0]) then rs[0 := Turned(rs[0])][1 := Turned(rs[1])]
    else rs[0 := Turned(rs[0])]
  }

  /**
   * Rotor 0 always steps, rotor 1 steps exactly when rotor 1 or rotor 0 is
   * on its notch, rotor 2 exactly when rotor 1 is, and no other rotor moves.
   */
  lemma SteppedRotorsProps(rs: seq<RotorState>)
    requires |rs| >= 3
    ensures SteppedRotors(rs)[0] == Turned(rs[0])
    ensures SteppedRotors(rs)[1] == if AtNotch(rs[1]) || AtNotch(rs[0]) then Turned(rs[1]) else rs[1]
    ensures SteppedRotors(rs)[2] == if AtNotch(rs[1]) then Turned(rs[2]) else rs[2]
    ensures forall i :: 3 <= i < |rs| ==> SteppedRotors(rs)[i] == rs[i]
  {
  }

  /**
   * The double step: when rotor 0 turns rotor 1 onto its notch, rotor 1
   * steps again at the next letter and takes rotor 2 with it.
   */
  lemma DoubleStep(rs: seq<RotorState>)
    requires |rs| >= 3 && AtNotch(rs[0]) && !AtNotch(rs[1]) && AtNotch(Turned(rs[1]))
    ensures SteppedRotors(rs)[1] == Turned(rs[1])
    ensures SteppedRotors(SteppedRotors(rs))[1] == Turned(Turned(rs[1]))
    ensures SteppedRotors(SteppedRotors(rs))[2] == Turned(rs[2])
  {
    SteppedRotorsProps(rs);
    SteppedRotorsProps(SteppedRotors(rs));
  }

  /** Rotors III, II and I (right to left) at U, D and A go to V D A, then W E A, then X F B. */
  lemma DoubleStepExample()
    ensures var rs := [RotorState(III, 20, 0), RotorState(II, 3, 0), RotorState(I, 0, 0)];
      && SteppedRotors(rs) == [RotorState(III, 21, 0), RotorState(II, 3, 0), RotorState(I, 0, 0)]
      && SteppedRotors(SteppedRotors(rs)) == [RotorState(III, 22, 0), RotorState(II, 4, 0), RotorState(I, 0, 0)]
      && SteppedRotors(SteppedRotors(SteppedRotors(rs))) == [RotorState(III, 23, 0), RotorState(II, 5, 0), RotorState(I, 1, 0)]
  {
    var rs := [RotorState(III, 20, 0), RotorState(II, 3, 0), RotorState(I, 0, 0)];
    var s1 := [RotorState(III, 21, 0), RotorState(II, 3, 0), RotorState(I, 0, 0)];
    var s2 := [RotorState(III, 22, 0), RotorState(II, 4, 0), RotorState(I, 0, 0)];
    assert !AtNotch(rs[1]) && !AtNotch(rs[0]);
    assert SteppedRotors(rs) == s1;
    assert !AtNotch(s1[1]) && AtNotch(s1[0]);
    assert SteppedRotors(s1) == s2;
    assert AtNotch(s2[1]);
  }

  /** The rotor states after `k` letters. */
  function StepsN(rs: seq<RotorState>, k: nat): (r: seq<RotorState>)
    requires |rs| >= 3
    ensures |r| == |rs|
    decreases k
  {
    if k == 0 then rs else SteppedRotors(StepsN(rs, k - 1))
  }

  /** One rotor's `input` at its state. */
  function RotorInput(r: RotorState, letter: int, reverse: bool): (out: int)
    ensures 0 <= out < 26
  {
    Through(r.wiringType, r.grund, r.rings, letter, reverse)
  }

  /** The forward `rotor_pass`: through rotor 0 first, then rotor 1, and so on. */
  function Forward(rs: seq<RotorState>, letter: int): (r: int)
    ensures 0 <= letter < 26 ==> 0 <= r < 26
    decreases |rs|
  {
    if |rs| == 0 then letter else Forward(rs[1..], RotorInput(rs[0], letter, false))
  }

  /** The reverse `rotor_pass`: through the last rotor first, rotor 0 last. */
  function Backward(rs: seq<RotorState>, letter: int): (r: int)
    ensures 0 <= letter < 26 ==> 0 <= r < 26
    decreases |rs|
  {
    if |rs| == 0 then letter else RotorInput(rs[0], Backward(rs[1..], letter), true)
  }

  /** The reverse pass undoes the forward pass, and the other way round. */
  lemma {:induction false} PassRoundTrip(rs: seq<RotorState>, letter: int)
    requires 0 <= letter < 26
    ensures Backward(rs, Forward(rs, letter)) == letter
    ensures Forward(rs, Backward(rs, letter)) == letter
    decreases |rs|
  {
    if |rs| > 0 {
      var r := rs[0];
      var x := RotorInput(r, letter, false);
      PassRoundTrip(rs[1..], x);
      ThroughRoundTrip(r.wiringType, r.grund, r.rings, letter, false);
      var y := Backward(rs[1..], letter);
      PassRoundTrip(rs[1..], letter);
      ThroughRoundTrip(r.wiringType, r.grund, r.rings, y, true);
    }
  }

  /** Passing through one more rotor at the far end comes first on the way back. */
  lemma {:induction false} BackwardSnoc(rs: seq<RotorState>, r: RotorState, letter: int)
    ensures Backward(rs + [r], letter) == Backward(rs, RotorInput(r, letter, true))
    decreases |rs|
  {
    if |rs| > 0 {
      assert (rs + [r])[1..] == rs[1..] + [r];
      BackwardSnoc(rs[1..], r, letter);
    } else {
      assert (rs + [r])[1..] == [];
    }
  }

  /**
   * The closure of `run_mut` for one letter, after the rotors have stepped:
   * plugboard, rotors forward, reflector, rotors back, plugboard.
   */
  function Encipher(sub: seq<int>, rs: seq<RotorState>, refl: ReflectorType, cp: int): (r: int)
    requires Involution(sub) && 0 <= cp < 26
    ensures 0 <= r < 26
  {
    var x := sub[cp];
    var z := Reflect(refl, Forward(rs, x));
    sub[Backward(rs, z)]
  }

  /**
   * At any one machine state enciphering is an involution that moves every
   * letter: a letter never enciphers to itself.
   */
  lemma EncipherInvolution(sub: seq<int>, rs: seq<RotorState>, refl: ReflectorType, cp: int)
    requires Involution(sub) && 0 <= cp < 26
    ensures Encipher(sub, rs, refl, Encipher(sub, rs, refl, cp)) == cp
    ensures Encipher(sub, rs, refl, cp) != cp
  {
    var x := sub[cp];
    var y := Forward(rs, x);
    var z := Reflect(refl, y);
    var w := Backward(rs, z);
    PassRoundTrip(rs, x);
    PassRoundTrip(rs, z);
    assert Encipher(sub, rs, refl, cp) == sub[w];
    assert sub[sub[w]] == w;
    assert Forward(rs, w) == z;
  }

  /** The code points `run_mut` gives a message's letters: letter `k` is enciphered after `k + 1` steps. */
  function RunCps(sub: seq<int>, rs: seq<RotorState>, refl: ReflectorType, p: seq<int>): (c: seq<int>)
    requires Involution(sub) && |rs| >= 3 && InRange(p, 26)
    ensures |c| == |p| && InRange(c, 26)
  {
    seq(|p|, k requires 0 <= k < |p| => Encipher(sub, StepsN(rs, k + 1), refl, p[k]))
  }

  /** Code point `k` of the run is enciphered at the state after `k + 1` steps. */
  lemma RunCpsAt(sub: seq<int>, rs: seq<RotorState>, refl: ReflectorType, p: seq<int>, k: int)
    requires Involution(sub) && |rs| >= 3 && InRange(p, 26) && 0 <= k < |p|
    ensures RunCps(sub, rs, refl, p)[k] == Encipher(sub, StepsN(rs, k + 1), refl, p[k])
  {
  }

  /** Running the code points twice from the same state gives them back; no code point is kept. */
  lemma RunCpsTwice(sub: seq<int>, rs: seq<RotorState>, refl: ReflectorType, p: seq<int>)
    requires Involution(sub) && |rs| >= 3 && InRange(p, 26)
    ensures RunCps(sub, rs, refl, RunCps(sub, rs, refl, p)) == p
    ensures forall k :: 0 <= k < |p| ==> RunCps(sub, rs, refl, p)[k] != p[k]
  {
    forall k | 0 <= k < |p|
      ensures RunCps(sub, rs, refl, RunCps(sub, rs, refl, p))[k] == p[k]
      ensures RunCps(sub, rs, refl, p)[k] != p[k]
    {
      EncipherInvolution(sub, StepsN(rs, k + 1), refl, p[k]);
    }
  }

  /** `run` and `run_mut` from a state: the letters get the enciphered code points, the rest is copied. */
  function Ran(a: LangAlphabet, sub: seq<int>, rs: seq<RotorState>, refl: ReflectorType, msg: string): string
    requires TableauAlphabet(a) && Involution(sub) && |rs| >= 3
  {
    StringToVecProps(a, msg);
    Relettered(a, msg, RunCps(sub, rs, refl, StringToVec(a, msg)))
  }

  /** `run` is its own inverse: running the output from the same state gives the message back. */
  lemma RanTwice(a: LangAlphabet, sub: seq<int>, rs: seq<RotorState>, refl: ReflectorType, msg: string)
    requires TableauAlphabet(a) && Involution(sub) && |rs| >= 3 && PlainLetters(a, msg)
    ensures Ran(a, sub, rs, refl, Ran(a, sub, rs, refl, msg)) == msg
  {
    StringToVecProps(a, msg);
    var p := StringToVec(a, msg);
    var c := RunCps(sub, rs, refl, p);
    ReletteredVec(a, msg, c);
    RunCpsTwice(sub, rs, refl, p);
    ReletteredTwice(a, msg, c, p);
    ReletteredOwn(a, msg);
  }

  /** A rotor object's state. */
  function StateOf(r: Rotor): RotorState
    reads r
  {
    RotorState(r.wiringType, r.grund, r.rings)
  }

  /** The states of a list of rotor objects. */
  function StatesOf(rs: seq<Rotor>): (r: seq<RotorState>)
    reads rs
    ensures |r| == |rs| && forall i :: 0 <= i < |rs| ==> r[i] == StateOf(rs[i])
    decreases |rs|
  {
    if |rs| == 0 then [] else [StateOf(rs[0])] + StatesOf(rs[1..])
  }

  class Enigma {
    const plugboard: Plugboard
    /** Rotor 0 is the rightmost. */
    const rotors: seq<Rotor>
    const reflector: Reflector

    /** At least three rotors, no rotor twice, and a plugboard that is an involution. */
    ghost predicate Valid()
      reads this, plugboard
    {
      |rotors| >= 3 && (forall i, j :: 0 <= i < j < |rotors| ==> rotors[i] != rotors[j]) && Involution(plugboard.substitution)
    }

    /** `new`: an unplugged plugboard, rotors I, II and III at 0, reflector B. */
    constructor ()
      ensures Valid() && plugboard.substitution == Identity(26) && reflector.wiringType == B
      ensures StatesOf(rotors) == [RotorState(I, 0, 0), RotorState(II, 0, 0), RotorState(III, 0, 0)]
      ensures fresh(plugboard) && fresh(reflector) && forall r :: r in rotors ==> fresh(r)
    {
      plugboard := new Plugboard();
      var r0 := new Rotor(I);
      var r1 := new Rotor(II);
      var r2 := new Rotor(III);
      rotors := [r0, r1, r2];
      reflector := new Reflector(B);
    }

    /** A machine built from the given parts. */
    constructor From(p: Plugboard, rs: seq<Rotor>, refl: Reflector)
      ensures plugboard == p && rotors == rs && reflector == refl
    {
      plugboard := p;
      rotors := rs;
      reflector := refl;
    }

    /** `Clone`: fresh copies of the plugboard, every rotor and the reflector. */
    method Clone() returns (e: Enigma)
      requires Valid()
      ensures fresh(e) && fresh(e.plugboard) && fresh(e.reflector) && forall r :: r in e.rotors ==> fresh(r)
      ensures e.Valid() && e.plugboard.substitution == old(plugboard.substitution)
      ensures StatesOf(e.rotors) == old(StatesOf(rotors)) && e.reflector.wiringType == old(reflector.wiringType)
    {
      var p := plugboard.Clone();
      var copies: seq<Rotor> := [];
      for i := 0 to |rotors|
        invariant |copies| == i
        invariant forall j :: 0 <= j < i ==> fresh(copies[j]) && StateOf(copies[j]) == StateOf(rotors[j])
        invariant forall j, k :: 0 <= j < k < i ==> copies[j] != copies[k]
        invariant p.substitution == plugboard.substitution
      {
        var c := rotors[i].Clone();
        copies := copies + [c];
      }
      var refl := reflector.Clone();
      e := new Enigma.From(p, copies, refl);
    }

    /** `step_rotors`: only rotors 0 to 2 can move. */
    method StepRotors()
      requires Valid()
      modifies rotors[0], rotors[1], rotors[2]
      ensures StatesOf(rotors) == SteppedRotors(old(StatesOf(rotors)))
    {
      if rotors[1].IsOnNotch() {
        rotors[1].Step();
        rotors[2].Step();
      } else if rotors[0].IsOnNotch() {
        rotors[1].Step();
      }
      rotors[0].Step();
    }

    /** The body of `rotor_pass`'s loop: the letter after rotor pass step `i`. */
    method PassStep(out: int, i: int, reverse: bool, ghost s: seq<RotorState>, ghost letter: int) returns (next: int)
      requires s == StatesOf(rotors) && 0 <= i < |s|
      requires !reverse ==> Forward(s[i..], out) == Forward(s, letter)
      requires reverse ==> Backward(s[..|s| - i], out) == Backward(s, letter)
      ensures !reverse ==> Forward(s[i + 1..], next) == Forward(s, letter)
      ensures reverse ==> Backward(s[..|s| - (i + 1)], next) == Backward(s, letter)
    {
      var n := |rotors|;
      var idx := if reverse then n - 1 - i else i;
      next := rotors[idx].Input(out, reverse);
      assert next == RotorInput(s[idx], out, reverse);
      if reverse {
        assert s[..n - i] == s[..n - i - 1] + [s[idx]];
        BackwardSnoc(s[..n - i - 1], s[idx], out);
      } else {
        assert s[i..][1..] == s[i + 1..];
      }
    }

    /** `rotor_pass`: rotors 0 upwards, or from the last rotor down when reversed. */
    method RotorPass(letter: int, reverse: bool) returns (out: int)
      ensures out == if reverse then Backward(StatesOf(rotors), letter) else Forward(StatesOf(rotors), letter)
    {
      ghost var s := StatesOf(rotors);
      out := letter;
      assert s[..|s|] == s && s[0..] == s;
      for i := 0 to |rotors|
        invariant !reverse ==> Forward(s[i..], out) == Forward(s, letter)
        invariant reverse ==> Backward(s[..|s| - i], out) == Backward(s, letter)
      {
        out := PassStep(out, i, reverse, s, letter);
      }
      assert s[..0] == [] && s[|s|..] == [];
    }

    /** One letter of `run_mut`: the rotors step, then the letter is enciphered at the new state. */
    method EncipherNext(cp: int) returns (out: int)
      requires Valid() && 0 <= cp < 26
      modifies rotors[0], rotors[1], rotors[2]
      ensures StatesOf(rotors) == SteppedRotors(old(StatesOf(rotors)))
      ensures out == Encipher(plugboard.substitution, StatesOf(rotors), reflector.wiringType, cp)
    {
      StepRotors();
      var x := plugboard.Input(cp);
      var y := RotorPass(x, false);
      var z := reflector.Input(y);
      var w := RotorPass(z, true);
      out := plugboard.Input(w);
    }

    /** One character of `run_mut`'s loop: a letter steps the rotors and is enciphered, anything else is copied. */
    method RunStep(a: LangAlphabet, msg: string, i: int, count: int, result: string, ghost s0: seq<RotorState>, ghost p: seq<int>, ghost cps: seq<int>)
      returns (count': int, result': string)
      requires Valid() && TableauAlphabet(a) && 0 <= i < |msg| && |s0| >= 3
      requires p == StringToVec(a, msg) && |p| == LetterCount(a, msg) && InRange(p, 26)
      requires cps == RunCps(plugboard.substitution, s0, reflector.wiringType, p)
      requires count == LetterCount(a, msg[..i]) <= |cps| && result == Relettered(a, msg[..i], cps[..count])
      requires StatesOf(rotors) == StepsN(s0, count)
      modifies rotors[0], rotors[1], rotors[2]
      ensures count' == LetterCount(a, msg[..i + 1]) <= |cps| && result' == Relettered(a, msg[..i + 1], cps[..count'])
      ensures StatesOf(rotors) == StepsN(s0, count')
    {
      var c := msg[i];
      PrefixStep(a, msg, i);
      if IsLetter(a, c) {
        ghost var sub, refl := plugboard.substitution, reflector.wiringType;
        RunCpsAt(sub, s0, refl, p, count);
        var cp := EncipherNext(GetCp(a, c));
        assert sub == plugboard.substitution && refl == reflector.wiringType;
        assert StatesOf(rotors) == StepsN(s0, count + 1);
        ReletteredSnoc(a, msg, cps, i, count, result, UpdateCp(a, c, cp));
        result' := result + [UpdateCp(a, c, cp)];
        count' := count + 1;
      } else {
        ReletteredSnoc(a, msg, cps, i, count, result, c);
        result' := result + [c];
        count' := count;
      }
    }

    /**
     * `run_mut`: each letter steps the rotors and is enciphered; other
     * characters are copied and do not step. The alphabet needs 26
     * letters because the plugboard has 26 entries.
     */
    method RunMut(a: LangAlphabet, msg: string) returns (result: string)
      requires Valid() && TableauAlphabet(a)
      modifies rotors[0], rotors[1], rotors[2]
      ensures result == Ran(a, plugboard.substitution, old(StatesOf(rotors)), reflector.wiringType, msg)
      ensures StatesOf(rotors) == StepsN(old(StatesOf(rotors)), LetterCount(a, msg))
    {
      ghost var s0 := StatesOf(rotors);
      StringToVecProps(a, msg);
      ghost var cps := RunCps(plugboard.substitution, s0, reflector.wiringType, StringToVec(a, msg));
      var count := 0;
      result := [];
      for i := 0 to |msg|
        invariant count == LetterCount(a, msg[..i]) <= |cps|
        invariant StatesOf(rotors) == StepsN(s0, count)
        invariant result == Relettered(a, msg[..i], cps[..count])
      {
        count, result := RunStep(a, msg, i, count, result, s0, StringToVec(a, msg), cps);
      }
      assert msg[..|msg|] == msg;
      assert cps[..count] == cps;
    }

    /**
     * `run`: `run_mut` on a clone, from the state the machine has when
     * called. The method changes nothing, so that is also its state after.
     */
    method Run(a: LangAlphabet, msg: string) returns (result: string)
      requires Valid() && TableauAlphabet(a)
      ensures result == Ran(a, plugboard.substitution, old(StatesOf(rotors)), reflector.wiringType, msg)
    {
      var copy := Clone();
      assert copy.rotors[0] in copy.rotors && copy.rotors[1] in copy.rotors && copy.rotors[2] in copy.rotors;
      result := copy.RunMut(a, msg);
    }

    /** `reset`: the plugboard, every rotor and the reflector are reset. */
    method Reset()
      requires Valid()
      modifies plugboard, reflector, rotors
      ensures Valid() && plugboard.substitution == Identity(26) && reflector.wiringType == B
      ensures forall i :: 0 <= i < |rotors| ==> StateOf(rotors[i]) == RotorState(I, 0, 0)
    {
      plugboard.Reset();
      for i := 0 to |rotors|
        invariant plugboard.substitution == Identity(26) && Involution(plugboard.substitution)
        invariant forall j :: 0 <= j < i ==> StateOf(rotors[j]) == RotorState(I, 0, 0)
      {
        rotors[i].Reset();
      }
      reflector.Reset();
    }

    /**
     * `randomize`: `picks` and `numPlugs` stand for the plugboard's draws;
     * rotor `i` takes wiring draw `types[i]` and positions `grunds[i]` and
     * `rings[i]`; `reflectorDraw` stands for the reflector's draw.
     */
    method Randomize(picks: seq<int>, numPlugs: int, types: seq<int>, grunds: seq<int>, rings: seq<int>, reflectorDraw: nat)
      requires Valid() && |picks| == 26 && InRange(picks, 26) && 5 <= numPlugs < 13 && reflectorDraw < 5
      requires |types| == |grunds| == |rings| == |rotors| && InRange(types, 8) && InRange(grunds, 26) && InRange(rings, 26)
      modifies plugboard, reflector, rotors
      ensures Valid() && plugboard.substitution == PlugsFrom(ShuffledLetters(picks), numPlugs)
      ensures forall i :: 0 <= i < |rotors| ==> StateOf(rotors[i]) == RotorState(FromDraw(types[i]), grunds[i], rings[i])
      ensures reflector.wiringType == FromIndex(reflectorDraw)
    {
      plugboard.Randomize(picks, numPlugs);
      for i := 0 to |rotors|
        invariant plugboard.substitution == PlugsFrom(ShuffledLetters(picks), numPlugs) && Involution(plugboard.substitution)
        invariant forall j :: 0 <= j < i ==> StateOf(rotors[j]) == RotorState(FromDraw(types[j]), grunds[j], rings[j])
      {
        rotors[i].Randomize(types[i], grunds[i], rings[i]);
      }
      reflector.Randomize(reflectorDraw);
    }
  }
}
