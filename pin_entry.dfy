/** The PIN screen of the main task. Each poll records at most one button
    press; after two and three presses masked progress is shown, and the
    fourth press triggers the check against the reference PIN, a verdict
    message and an unconditional system reset. */
module PinEntry {
  import opened Common

  /** The reference PIN (`testea`). */
  const REFERENCE: seq<int> := [3, 1, 1, 1]

  /** Number of entries that completes a PIN. */
  const PIN_LENGTH: nat := 4

  /** The three push-buttons as read on one poll. */
  datatype Buttons = Buttons(button1: bool, button2: bool, button3: bool)

  /** What a poll draws, in order: progress stars, then the verdict. */
  datatype Message = Stars(count: nat) | Correct | Incorrect

  /** The entries recorded so far (`senha[0..vari)`) and whether the reset
      has been requested. */
  datatype Pin = Pin(entries: seq<int>, reset: bool)

  /** The entry one poll records: button 1 wins over button 2, which wins
      over button 3, and the value recorded is the button's number. */
  function Recorded(b: Buttons): (r: seq<int>)
    ensures |r| <= 1
    ensures |r| == 1 <==> b.button1 || b.button2 || b.button3
    ensures b.button1 ==> r == [1]
    ensures !b.button1 && b.button2 ==> r == [2]
    ensures !b.button1 && !b.button2 && b.button3 ==> r == [3]
  {
    if b.button1 then [1]
    else if b.button2 then [2]
    else if b.button3 then [3]
    else []
  }

  /** The comparison as the firmware writes it: the sum of the entry-wise
      differences from the reference must be zero. */
  function SumOfDifferences(senha: seq<int>, testea: seq<int>): int
    requires |senha| == PIN_LENGTH && |testea| == PIN_LENGTH
  {
    (senha[3] - testea[3]) + (senha[2] - testea[2]) + (senha[1] - testea[1]) + (senha[0] - testea[0])
  }

  /** Whether four entries are accepted: exactly when they add up to the
      reference's sum, 3 + 1 + 1 + 1. The reference itself is accepted. */
  function Accepts(senha: seq<int>): (ok: bool)
    requires |senha| == PIN_LENGTH
    ensures ok <==> senha[0] + senha[1] + senha[2] + senha[3] == 6
    ensures senha == REFERENCE ==> ok
  {
    SumOfDifferences(senha, REFERENCE) == 0
  }

  predicate IsButtonValue(x: int)
  {
    1 <= x <= 3
  }

  function Sum(s: seq<int>): int
    decreases s
  {
    if s == [] then 0 else s[0] + Sum(s[1..])
  }

  /** For entries that are button values, the multiset of entries is given by
      how many 1s, 2s and 3s there are, and so is their sum. */
  lemma {:induction false} ButtonValueCounts(s: seq<int>)
    requires forall k :: 0 <= k < |s| ==> IsButtonValue(s[k])
    ensures multiset(s)[1] + multiset(s)[2] + multiset(s)[3] == |s|
    ensures Sum(s) == multiset(s)[1] + 2 * multiset(s)[2] + 3 * multiset(s)[3]
    ensures forall x :: !IsButtonValue(x) ==> multiset(s)[x] == 0
    decreases s
  {
    if s != [] {
      ButtonValueCounts(s[1..]);
      assert s == [s[0]] + s[1..];
      assert multiset(s) == multiset{s[0]} + multiset(s[1..]);
    }
  }

  /** Over button values, the sum test accepts exactly the rearrangements
      of 3,1,1,1 and of 2,2,1,1: ten sequences, not only the reference. */
  lemma AcceptedPins(senha: seq<int>)
    requires |senha| == PIN_LENGTH
    requires forall k :: 0 <= k < |senha| ==> IsButtonValue(senha[k])
    ensures Accepts(senha) <==>
      multiset(senha) == multiset{3, 1, 1, 1} || multiset(senha) == multiset{2, 2, 1, 1}
  {
    var m := multiset(senha);
    ButtonValueCounts(senha);
    assert Sum(senha) == senha[0] + senha[1] + senha[2] + senha[3] by {
      var s1 := senha[1..];
      var s2 := s1[1..];
      var s3 := s2[1..];
      assert s3[1..] == [];
      assert Sum(s3) == senha[3];
      assert Sum(s2) == senha[2] + senha[3];
      assert Sum(s1) == senha[1] + senha[2] + senha[3];
    }
    var a := multiset{3, 1, 1, 1};
    var b := multiset{2, 2, 1, 1};
    if m[1] == 3 && m[2] == 0 && m[3] == 1 {
      assert forall x :: m[x] == a[x];
    } else if m[1] == 2 && m[2] == 2 && m[3] == 0 {
      assert forall x :: m[x] == b[x];
    } else {
      assert m != a by { assert a[1] == 3 && a[2] == 0; }
      assert m != b by { assert b[1] == 2 && b[2] == 2; }
    }
  }

  /** Entry-wise equality is not what is checked: a different PIN passes. */
  lemma OtherPinAccepted()
    ensures [1, 3, 1, 1] != REFERENCE && Accepts([1, 3, 1, 1])
    ensures [2, 2, 1, 1] != REFERENCE && Accepts([2, 2, 1, 1])
  {
  }

  /** The messages one poll draws, given the entries after it. */
  function Feedback(entries: seq<int>): (m: seq<Message>)
    ensures |entries| == 2 ==> m == [Stars(1)]
    ensures |entries| == 3 ==> m == [Stars(2)]
    ensures |entries| == PIN_LENGTH ==>
      m == [Stars(3), if Accepts(entries) then Correct else Incorrect]
    ensures |entries| !in {2, 3, PIN_LENGTH} ==> m == []
  {
    if |entries| == 2 then [Stars(1)]
    else if |entries| == 3 then [Stars(2)]
    else if |entries| == PIN_LENGTH then
      [Stars(3), if Accepts(entries) then Correct else Incorrect]
    else []
  }

  /** One poll of a PIN not yet complete: at most one entry is added at the
      end, the earlier entries stay, and the reset is requested exactly when
      the fourth entry arrives. */
  function Poll(p: Pin, b: Buttons): (r: Pin)
    requires !p.reset && |p.entries| < PIN_LENGTH
    ensures |p.entries| <= |r.entries| <= |p.entries| + 1
    ensures r.entries[..|p.entries|] == p.entries
    ensures r.reset <==> |r.entries| == PIN_LENGTH
  {
    var entries := p.entries + Recorded(b);
    Pin(entries, |entries| == PIN_LENGTH)
  }

  /** The presses a run of polls records, in order. */
  function Presses(polls: seq<Buttons>): (r: seq<int>)
    ensures forall k :: 0 <= k < |r| ==> IsButtonValue(r[k])
    ensures |r| <= |polls|
    decreases polls
  {
    if polls == [] then [] else Recorded(polls[0]) + Presses(polls[1..])
  }

  /** The main task polled once per element of `polls`; after the reset is
      requested nothing of this run executes any more. */
  function Run(p: Pin, polls: seq<Buttons>): (r: Pin)
    requires |p.entries| <= PIN_LENGTH && (p.reset <==> |p.entries| == PIN_LENGTH)
    decreases polls
  {
    if polls == [] || p.reset then p else Run(Poll(p, polls[0]), polls[1..])
  }

  /** A run records the presses in order, stops at the fourth, and requests
      the reset exactly when four presses have been made; so `senha` is only
      written at indices 0 to 3, and never more than four entries exist. */
  lemma {:induction false} RunRecordsPresses(p: Pin, polls: seq<Buttons>)
    requires |p.entries| <= PIN_LENGTH && (p.reset <==> |p.entries| == PIN_LENGTH)
    ensures |Run(p, polls).entries| == Min(PIN_LENGTH, |p.entries| + |Presses(polls)|)
    ensures Run(p, polls).entries <= p.entries + Presses(polls)
    ensures Run(p, polls).reset <==> |p.entries| + |Presses(polls)| >= PIN_LENGTH
    decreases polls
  {
    if polls != [] && !p.reset {
      var q := Poll(p, polls[0]);
      var rest := polls[1..];
      RunRecordsPresses(q, rest);
      PressesAppend(p.entries, polls);
    }
  }

  /** Recording the first poll's press, then the rest. */
  lemma PressesAppend(entries: seq<int>, polls: seq<Buttons>)
    requires polls != []
    ensures entries + Presses(polls) == (entries + Recorded(polls[0])) + Presses(polls[1..])
  {
  }

  /** Buttons pressing exactly button `k`. */
  function Press(k: int): Buttons
  {
    Buttons(k == 1, k == 2, k == 3)
  }

  /** One poll per value of `ks`, each pressing that button alone. */
  function Polls(ks: seq<int>): (r: seq<Buttons>)
    ensures |r| == |ks|
    decreases ks
  {
    if ks == [] then [] else [Press(ks[0])] + Polls(ks[1..])
  }

  lemma {:induction false} PressesOfPolls(ks: seq<int>)
    requires forall k :: 0 <= k < |ks| ==> IsButtonValue(ks[k])
    ensures Presses(Polls(ks)) == ks
    decreases ks
  {
    if ks != [] {
      PressesOfPolls(ks[1..]);
      assert Polls(ks)[1..] == Polls(ks[1..]);
    }
  }

  /** From the start, polls whose presses are `ks` (at most four) leave
      exactly `ks` entered, with the reset requested if there are four. */
  lemma RunFromStart(polls: seq<Buttons>, ks: seq<int>)
    requires Presses(polls) == ks && |ks| <= PIN_LENGTH
    ensures Run(Pin([], false), polls) == Pin(ks, |ks| == PIN_LENGTH)
  {
    RunRecordsPresses(Pin([], false), polls);
    assert [] + ks == ks;
  }

  /** The PIN scenarios: fewer than four presses never request the reset;
      four presses request it, with exactly those entries, on the fourth. */
  lemma PressSequence(ks: seq<int>)
    requires |ks| <= PIN_LENGTH
    requires forall k :: 0 <= k < |ks| ==> IsButtonValue(ks[k])
    ensures Run(Pin([], false), Polls(ks)) == Pin(ks, |ks| == PIN_LENGTH)
  {
    PressesOfPolls(ks);
    RunFromStart(Polls(ks), ks);
  }

  /** 1, 2, 3 followed by 1 is rejected; the reference 3, 1, 1, 1 is
      accepted; both complete the entry and request the reset. */
  lemma PinScenarios()
    ensures Run(Pin([], false), Polls([1, 2, 3, 1])) == Pin([1, 2, 3, 1], true)
    ensures Feedback([1, 2, 3, 1]) == [Stars(3), Incorrect]
    ensures Run(Pin([], false), Polls(REFERENCE)) == Pin(REFERENCE, true)
    ensures Feedback(REFERENCE) == [Stars(3), Correct]
  {
    PressSequence([1, 2, 3, 1]);
    PressSequence(REFERENCE);
  }

  /** The main task's own state: the entry array `senha`, the reference array
      `testea`, the entry count `vari`, the pending menu redraw and the
      reset request that stands for the call to Reset_Handler. */
  class MainTask {
    const senha: array<int>
    const testea: array<int>
    var vari: nat
    var selectionChanged: bool
    var resetRequested: bool

    /** The arrays have four slots, `testea` holds the reference and the
        first `vari` slots of `senha` hold button values. */
    ghost predicate Entered()
      reads this, senha, testea
    {
      senha.Length == PIN_LENGTH && testea.Length == PIN_LENGTH && senha != testea &&
      testea[..] == REFERENCE &&
      vari <= PIN_LENGTH &&
      forall k :: 0 <= k < vari ==> IsButtonValue(senha[k])
    }

    /** Between iterations the count reaches four only with the reset
        requested. */
    ghost predicate Valid()
      reads this, senha, testea
    {
      Entered() && (resetRequested <==> vari == PIN_LENGTH)
    }

    ghost function State(): Pin
      reads this, senha
      requires vari <= senha.Length
    {
      Pin(senha[..vari], resetRequested)
    }

    /** Task start: no entries, menu still to be drawn. */
    constructor ()
      ensures Valid() && fresh(senha) && fresh(testea)
      ensures State() == Pin([], false) && selectionChanged
    {
      senha := new int[PIN_LENGTH];
      var t := new int[PIN_LENGTH];
      t[0], t[1], t[2], t[3] := 3, 1, 1, 1;
      assert t[..] == REFERENCE;
      testea := t;
      vari := 0;
      selectionChanged := true;
      resetRequested := false;
    }

    /** The button part of one iteration: the pressed button with the
        highest priority is stored at `senha[vari]` and counted. */
    method Record(b: Buttons)
      requires Valid() && !resetRequested
      modifies this`vari, senha
      ensures Entered()
      ensures senha[..vari] == old(senha[..vari]) + Recorded(b)
    {
      if b.button1 {
        senha[vari] := 1;
        vari := vari + 1;
      } else if b.button2 {
        senha[vari] := 2;
        vari := vari + 1;
      } else if b.button3 {
        senha[vari] := 3;
        vari := vari + 1;
      }
      assert senha[..vari] == old(senha[..vari]) + Recorded(b);
    }

    /** One iteration of the main task's loop, given the buttons it reads.
        It returns the PIN messages it draws and whether it resumes the
        about task (the first iteration that does not reset does). */
    method Tick(b: Buttons) returns (shown: seq<Message>, resumeAbout: bool)
      requires Valid() && !resetRequested
      modifies this, senha
      ensures Valid()
      ensures State() == Poll(old(State()), b)
      ensures shown == Feedback(State().entries)
      ensures resumeAbout == (old(selectionChanged) && !resetRequested)
      ensures selectionChanged == (old(selectionChanged) && resetRequested)
    {
      Record(b);

      shown := [];
      if vari == 2 {
        shown := [Stars(1)];
      } else if vari == 3 {
        shown := [Stars(2)];
      }

      resumeAbout := false;
      if vari == 4 {
        var verdade := (senha[3] - testea[3]) + (senha[2] - testea[2]) +
                       (senha[1] - testea[1]) + (senha[0] - testea[0]);
        assert senha[..4] == [senha[0], senha[1], senha[2], senha[3]];
        if verdade == 0 {
          shown := [Stars(3), Correct];
        } else {
          shown := [Stars(3), Incorrect];
        }
        // Reset_Handler(): nothing after it in this iteration runs
        resetRequested := true;
        return;
      }

      if selectionChanged {
        selectionChanged := false;
        resumeAbout := true;
      }
    }
  }
}
