/** The Memory Table game (src/components/MemoryTable.tsx): a size x size grid
    holds the numbers 1..size² in shuffled order; they are shown for a while,
    hidden, and the player must click them back in ascending order, starting
    over after any mistake. The transitions are specified as functions on the
    component's state (`Table`) and carried out by the methods of the class
    `MemoryTable`, which update the component's fields as the handlers do. */
module MemoryTable {
  import opened GameTypes

  datatype Difficulty = Beginner | Intermediate | Expert
  {
    /** The string the source uses for the difficulty. */
    function Name(): string
    {
      match this
      case Beginner => "beginner"
      case Intermediate => "intermediate"
      case Expert => "expert"
    }
  }

  /** Helps granted per initialised game. */
  const HelpBudget: int := 3

  /** The round state before any difficulty is chosen, and after a reset. */
  const InitialState: MemoryTableState := MemoryTableState(0, [], true, [], None, None, false)

  /** `getDifficultySize`: the grid side of a difficulty name; an unknown name
      gets the beginner size. */
  function GetDifficultySize(diff: string): (size: nat)
    ensures 2 <= size <= 4
    ensures size == 3 <==> diff == "intermediate"
    ensures size == 4 <==> diff == "expert"
  {
    match diff
    case "beginner" => 2
    case "intermediate" => 3
    case "expert" => 4
    case _ => 2
  }

  /** Each difficulty's grid has side 2, 3 or 4 respectively. */
  lemma DifficultySizes(d: Difficulty)
    ensures GetDifficultySize(d.Name()) == match d
      case Beginner => 2
      case Intermediate => 3
      case Expert => 4
  {
  }

  /** The number of cells of a difficulty's grid. */
  function Cells(d: Difficulty): nat
  {
    GetDifficultySize(d.Name()) * GetDifficultySize(d.Name())
  }

  // ------------------------------------------------------------------------
  // The numbers on the board

  /** `Array.from({ length: n }, (_, i) => i + 1)`: the numbers 1..n in order. */
  function Iota(n: nat): (r: seq<int>)
    ensures |r| == n
    ensures forall i :: 0 <= i < n ==> r[i] == i + 1
  {
    if n == 0 then [] else Iota(n - 1) + [n]
  }

  predicate Distinct<T(==)>(s: seq<T>)
  {
    forall i, j :: 0 <= i < j < |s| ==> s[i] != s[j]
  }

  /** `perm` lists the indices 0..n-1, each once, in some order. It stands for
      the order the random comparator happens to produce. */
  predicate IsIndexPermutation(perm: seq<nat>, n: nat)
  {
    |perm| == n && (forall i :: 0 <= i < n ==> perm[i] < n) && Distinct(perm)
  }

  /** The shuffled board: cell `i` holds the number `perm[i] + 1`. */
  function Shuffle(n: nat, perm: seq<nat>): (numbers: seq<int>)
    requires IsIndexPermutation(perm, n)
    ensures |numbers| == n
    ensures forall i :: 0 <= i < n ==> numbers[i] == Iota(n)[perm[i]]
  {
    seq(n, i requires 0 <= i < n => perm[i] + 1)
  }

  /** A sequence without repetitions holds each of its elements once. */
  lemma {:induction false} DistinctMultiset<T>(s: seq<T>)
    requires Distinct(s)
    ensures forall x :: multiset(s)[x] == if x in s then 1 else 0
  {
    if s != [] {
      assert s == [s[0]] + s[1..];
      assert Distinct(s[1..]) by {
        forall i, j | 0 <= i < j < |s[1..]| ensures s[1..][i] != s[1..][j] {
          assert s[1..][i] == s[i + 1] && s[1..][j] == s[j + 1];
        }
      }
      DistinctMultiset(s[1..]);
      assert s[0] !in s[1..] by {
        forall k | 0 <= k < |s[1..]| ensures s[1..][k] != s[0] { assert s[1..][k] == s[k + 1]; }
      }
      forall x ensures multiset(s)[x] == if x in s then 1 else 0 {
        assert multiset(s)[x] == multiset([s[0]])[x] + multiset(s[1..])[x];
        assert x in s <==> x == s[0] || x in s[1..];
      }
    }
  }

  lemma {:induction false} DistinctCard<T>(s: seq<T>)
    requires Distinct(s)
    ensures |set x | x in s| == |s|
  {
    if s != [] {
      assert Distinct(s[1..]) by {
        forall i, j | 0 <= i < j < |s[1..]| ensures s[1..][i] != s[1..][j] {
          assert s[1..][i] == s[i + 1] && s[1..][j] == s[j + 1];
        }
      }
      DistinctCard(s[1..]);
      assert s[0] !in s[1..] by {
        forall k | 0 <= k < |s[1..]| ensures s[1..][k] != s[0] { assert s[1..][k] == s[k + 1]; }
      }
      var rest := set x | x in s[1..];
      assert s[0] !in rest;
      assert (set x | x in s) == {s[0]} + rest;
    }
  }

  /** Pigeonhole: `small` holds as many distinct elements as `big`, all taken
      from `big`, so it holds all of them. */
  lemma Pigeonhole<T>(small: seq<T>, big: seq<T>)
    requires Distinct(small) && Distinct(big) && |small| == |big|
    requires forall i :: 0 <= i < |small| ==> small[i] in big
    ensures forall x :: x in big ==> x in small
  {
    var used, all := set x | x in small, set x | x in big;
    DistinctCard(small);
    DistinctCard(big);
    assert used <= all;
    assert |all - used| == |all| - |used| == 0;
    assert all - used == {};
    forall x | x in big ensures x in small {
      assert x in all;
    }
  }

  /** Two sequences without repetitions that hold the same elements hold them
      equally often. */
  lemma SameElements<T>(a: seq<T>, b: seq<T>)
    requires Distinct(a) && Distinct(b)
    requires forall x :: x in a <==> x in b
    ensures multiset(a) == multiset(b)
  {
    DistinctMultiset(a);
    DistinctMultiset(b);
    assert forall x :: multiset(a)[x] == multiset(b)[x];
  }

  /** An element occurring at two indices is counted at least twice. */
  lemma Twice<T>(a: seq<T>, i: nat, j: nat)
    requires i < j < |a| && a[i] == a[j]
    ensures multiset(a)[a[i]] >= 2
  {
    assert a == a[..j] + a[j..];
    assert a[i] in a[..j];
    assert a[j] in a[j..];
    assert multiset(a) == multiset(a[..j]) + multiset(a[j..]);
  }

  /** A sequence with the multiset of one without repetitions has none either. */
  lemma DistinctByMultiset<T>(a: seq<T>, b: seq<T>)
    requires multiset(a) == multiset(b) && Distinct(b)
    ensures Distinct(a)
  {
    DistinctMultiset(b);
    forall i, j | 0 <= i < j < |a| ensures a[i] != a[j] {
      if a[i] == a[j] {
        Twice(a, i, j);
        assert false;
      }
    }
  }

  /** The shuffled board is a permutation of 1..n: sorting keeps the multiset. */
  lemma ShufflePermutes(n: nat, perm: seq<nat>)
    requires IsIndexPermutation(perm, n)
    ensures multiset(Shuffle(n, perm)) == multiset(Iota(n))
  {
    var numbers, ordered := Shuffle(n, perm), Iota(n);
    assert Distinct(numbers) by {
      forall i, j | 0 <= i < j < n ensures numbers[i] != numbers[j] {
        assert numbers[i] == perm[i] + 1 && numbers[j] == perm[j] + 1;
      }
    }
    forall i | 0 <= i < n ensures numbers[i] in ordered {
      assert numbers[i] == ordered[perm[i]];
    }
    Pigeonhole(numbers, ordered);
    SameElements(numbers, ordered);
  }

  lemma InIota(x: int, n: nat)
    ensures x in Iota(n) <==> 1 <= x <= n
  {
    if 1 <= x <= n {
      assert Iota(n)[x - 1] == x;
    }
  }

  /** A sequence with the multiset of 1..n holds only numbers from 1 to n. */
  lemma WithinIota(numbers: seq<int>, n: nat)
    requires multiset(numbers) == multiset(Iota(n))
    ensures forall i :: 0 <= i < |numbers| ==> 1 <= numbers[i] <= n
  {
    forall i | 0 <= i < |numbers| ensures 1 <= numbers[i] <= n {
      assert numbers[i] in multiset(numbers);
      InIota(numbers[i], n);
    }
  }

  /** The index permutation that deals `numbers`: each number less one. */
  function Unshuffle(numbers: seq<int>): (perm: seq<nat>)
    requires forall i :: 0 <= i < |numbers| ==> 1 <= numbers[i]
    ensures |perm| == |numbers|
    ensures forall i :: 0 <= i < |numbers| ==> perm[i] + 1 == numbers[i]
  {
    seq(|numbers|, i requires 0 <= i < |numbers| => (numbers[i] - 1) as nat)
  }

  lemma UnshuffleDeals(numbers: seq<int>)
    requires Distinct(numbers)
    requires forall i :: 0 <= i < |numbers| ==> 1 <= numbers[i] <= |numbers|
    ensures IsIndexPermutation(Unshuffle(numbers), |numbers|)
    ensures Shuffle(|numbers|, Unshuffle(numbers)) == numbers
  {
    var perm := Unshuffle(numbers);
    assert Distinct(perm) by {
      forall i, j | 0 <= i < j < |perm| ensures perm[i] != perm[j] {
        assert numbers[i] != numbers[j];
      }
    }
  }

  /** Every order of the numbers 1..n is a possible shuffle. */
  lemma EveryOrderIsAShuffle(numbers: seq<int>)
    requires multiset(numbers) == multiset(Iota(|numbers|))
    ensures exists perm :: IsIndexPermutation(perm, |numbers|) && Shuffle(|numbers|, perm) == numbers
  {
    var n := |numbers|;
    WithinIota(numbers, n);
    assert Distinct(Iota(n));
    DistinctByMultiset(numbers, Iota(n));
    UnshuffleDeals(numbers);
  }

  // ------------------------------------------------------------------------
  // The component state and its transitions

  /** The whole component state, not just the grid: the chosen difficulty,
      the round, whether a help is showing the numbers, and the helps left. */
  datatype Table = Table(difficulty: Option<Difficulty>, state: MemoryTableState, showHelp: bool, helpCount: int)

  const InitialTable: Table := Table(None, InitialState, false, HelpBudget)

  /** `initializeGame`: a fresh round on the shuffled board, numbers revealed,
      not started, and a full help budget. */
  function Initialize(b: Table, diff: Difficulty, perm: seq<nat>): Table
    requires IsIndexPermutation(perm, Cells(diff))
  {
    var size := GetDifficultySize(diff.Name());
    Table(Some(diff), MemoryTableState(size, Shuffle(size * size, perm), true, [], None, None, false),
          b.showHelp, HelpBudget)
  }

  /** The body of the reveal timeout: hide the numbers and start the clock. */
  function Reveal(b: Table, now: int): Table
  {
    b.(state := b.state.(revealed := false, startTime := Some(now), gameStarted := true))
  }

  /** `handleCellClick(index)`, with the completion time reported to the
      session as the second component. An index outside the board reads
      `undefined`, which never equals the expected number. */
  function Click(b: Table, index: int, now: int): (Table, Option<int>)
  {
    var s := b.state;
    if !s.gameStarted || s.revealed then (b, None)
    else
      var expected := |s.selectedNumbers| + 1;
      if 0 <= index < |s.numbers| && s.numbers[index] == expected then
        var selected := s.selectedNumbers + [expected];
        if |selected| == |s.numbers| then
          (b.(state := s.(endTime := Some(now), gameStarted := false)), Some(now - OrZero(s.startTime)))
        else (b.(state := s.(selectedNumbers := selected)), None)
      else (b.(state := s.(selectedNumbers := [])), None)
  }

  /** `handleHelp`: show the numbers and spend one help, if one is left and
      the round is being played. */
  function Help(b: Table): Table
  {
    if b.helpCount > 0 && b.state.gameStarted && !b.state.revealed
    then b.(showHelp := true, helpCount := b.helpCount - 1)
    else b
  }

  /** The body of the help timeout. */
  function HelpOver(b: Table): Table
  {
    b.(showHelp := false)
  }

  /** The reset button: forget the difficulty and the round. The help count
      and the help display are left as they are. */
  function Reset(b: Table): Table
  {
    b.(difficulty := None, state := InitialState)
  }

  // ------------------------------------------------------------------------
  // The invariant

  /** `selectedNumbers` is `[1..k]`, with `k` short of the board size unless
      nothing is selected. */
  predicate PrefixSelected(selected: seq<int>, cells: nat)
  {
    selected == Iota(|selected|) && (selected == [] || |selected| < cells)
  }

  /** The board holds the numbers 1..size², each once. */
  predicate Dealt(numbers: seq<int>, size: nat)
  {
    multiset(numbers) == multiset(Iota(size * size))
  }

  /** What holds of every board the component can reach. */
  predicate Invariant(b: Table)
  {
    0 <= b.helpCount <= HelpBudget &&
    Dealt(b.state.numbers, b.state.size) &&
    (b.difficulty.Some? ==> b.state.size == GetDifficultySize(b.difficulty.value.Name())) &&
    (b.difficulty.None? ==> b.state.size == 0) &&
    PrefixSelected(b.state.selectedNumbers, |b.state.numbers|)
  }

  lemma InitialInvariant()
    ensures Invariant(InitialTable)
  {
  }

  /** Initialisation establishes the invariant from any board, with the
      numbers of the grid in some order, nothing selected, the numbers shown,
      the round not started and three helps. */
  lemma InitializeEstablishes(b: Table, diff: Difficulty, perm: seq<nat>)
    requires IsIndexPermutation(perm, Cells(diff))
    ensures var b' := Initialize(b, diff, perm);
            Invariant(b') && b'.helpCount == HelpBudget &&
            |b'.state.numbers| == Cells(diff) &&
            multiset(b'.state.numbers) == multiset(Iota(Cells(diff))) &&
            b'.state.selectedNumbers == [] && b'.state.revealed && !b'.state.gameStarted &&
            b'.state.startTime == None && b'.state.endTime == None
  {
    ShufflePermutes(Cells(diff), perm);
  }

  /** The reveal timeout keeps the invariant and changes nothing but the three
      fields it sets. */
  lemma RevealKeeps(b: Table, now: int)
    requires Invariant(b)
    ensures var b' := Reveal(b, now);
            Invariant(b') && !b'.state.revealed && b'.state.gameStarted && b'.state.startTime == Some(now) &&
            b'.state.numbers == b.state.numbers && b'.state.size == b.state.size &&
            b'.state.selectedNumbers == b.state.selectedNumbers && b'.state.endTime == b.state.endTime &&
            b'.difficulty == b.difficulty && b'.helpCount == b.helpCount && b'.showHelp == b.showHelp
  {
  }

  /** A click does nothing unless the round is being played. */
  lemma ClickGuard(b: Table, index: int, now: int)
    requires !b.state.gameStarted || b.state.revealed
    ensures Click(b, index, now) == (b, None)
  {
  }

  /** What a click during play does: the right number extends the selection
      by one, or completes the round when it is the last; anything else clears
      the selection. The board, the difficulty and the helps never change. */
  lemma ClickOutcome(b: Table, index: int, now: int)
    requires Invariant(b) && b.state.gameStarted && !b.state.revealed
    ensures var (b', reported) := Click(b, index, now);
            var s, s' := b.state, b'.state;
            var k := |s.selectedNumbers|;
            var hit := 0 <= index < |s.numbers| && s.numbers[index] == k + 1;
            b'.difficulty == b.difficulty && b'.showHelp == b.showHelp && b'.helpCount == b.helpCount &&
            s'.numbers == s.numbers && s'.size == s.size && s'.revealed == s.revealed &&
            s'.startTime == s.startTime &&
            (hit && k + 1 == |s.numbers| ==>
               s'.selectedNumbers == s.selectedNumbers && !s'.gameStarted && s'.endTime == Some(now) &&
               reported == Some(now - OrZero(s.startTime))) &&
            (hit && k + 1 < |s.numbers| ==>
               s'.selectedNumbers == Iota(k + 1) && s'.gameStarted && s'.endTime == s.endTime && reported == None) &&
            (!hit ==> s'.selectedNumbers == [] && s'.gameStarted && s'.endTime == s.endTime && reported == None)
  {
    var s := b.state;
    var k := |s.selectedNumbers|;
    assert s.selectedNumbers + [k + 1] == Iota(k + 1);
    if 0 <= index < |s.numbers| && s.numbers[index] == k + 1 {
      assert k + 1 <= |s.numbers|;
    }
  }

  lemma ClickKeeps(b: Table, index: int, now: int)
    requires Invariant(b)
    ensures Invariant(Click(b, index, now).0)
    ensures Click(b, index, now).0.helpCount == b.helpCount
  {
    if b.state.gameStarted && !b.state.revealed {
      ClickOutcome(b, index, now);
    }
  }

  /** Clicking a number found already is a mistake: the selection restarts. */
  lemma ReclickResets(b: Table, index: int, now: int)
    requires Invariant(b) && b.state.gameStarted && !b.state.revealed
    requires 0 <= index < |b.state.numbers| && b.state.numbers[index] in b.state.selectedNumbers
    ensures Click(b, index, now).0.state.selectedNumbers == []
  {
    var sel := b.state.selectedNumbers;
    var j :| 0 <= j < |sel| && sel[j] == b.state.numbers[index];
    assert sel[j] == j + 1;
  }

  /** While a round is being played the number expected next is on the board,
      so the round can always be won. */
  lemma ExpectedNumberOnBoard(b: Table)
    requires Invariant(b) && |b.state.numbers| > 0
    ensures exists index :: 0 <= index < |b.state.numbers| &&
                            b.state.numbers[index] == |b.state.selectedNumbers| + 1
  {
    var s := b.state;
    var n := s.size * s.size;
    var e := |s.selectedNumbers| + 1;
    assert |s.numbers| == n by {
      assert |multiset(s.numbers)| == |multiset(Iota(n))|;
    }
    assert Iota(n)[e - 1] == e;
    assert e in multiset(Iota(n));
    assert e in multiset(s.numbers);
  }

  /** Clicking the last expected number ends the round, and the click right
      after it is ignored. */
  lemma CompletionIsFinal(b: Table, index: int, now: int, index': int, later: int)
    requires Invariant(b) && b.state.gameStarted && !b.state.revealed
    requires Click(b, index, now).1.Some?
    ensures var b' := Click(b, index, now).0;
            !b'.state.gameStarted && Click(b', index', later) == (b', None)
  {
  }

  /** Completion is not final, since the reveal timeout is never cancelled. A
      stale reveal firing after the win starts the round again, and the
      winning round still has every number but the last selected. So clicking
      the last number once more reports a second completion, timed from the
      stale reveal. */
  lemma StaleRevealReReports(b: Table, index: int, now: int, revealAt: int, later: int)
    requires Invariant(b) && Click(b, index, now).1.Some?
    ensures var won := Click(b, index, now).0;
            Click(Reveal(won, revealAt), index, later).1 == Some(later - revealAt)
  {
    var s := b.state;
    assert s.gameStarted && !s.revealed;
    assert 0 <= index < |s.numbers| && s.numbers[index] == |s.selectedNumbers| + 1;
    assert |s.selectedNumbers| + 1 == |s.numbers|;
    var won := Click(b, index, now).0;
    assert won.state.selectedNumbers == s.selectedNumbers && won.state.numbers == s.numbers;
  }

  /** A help is spent only when one is left and the round is being played; the
      count never goes below zero. */
  lemma HelpSpends(b: Table)
    requires Invariant(b)
    ensures var b' := Help(b);
            Invariant(b') && b'.state == b.state && b'.difficulty == b.difficulty &&
            (if b.helpCount > 0 && b.state.gameStarted && !b.state.revealed
             then b'.helpCount == b.helpCount - 1 && b'.showHelp
             else b' == b)
  {
  }

  lemma HelpOverKeeps(b: Table)
    requires Invariant(b)
    ensures var b' := HelpOver(b);
            Invariant(b') && !b'.showHelp && b'.state == b.state && b'.helpCount == b.helpCount
  {
  }

  /** The reset button clears the round but keeps the help count. */
  lemma ResetKeeps(b: Table)
    requires Invariant(b)
    ensures var b' := Reset(b);
            Invariant(b') && b'.difficulty == None && b'.state == InitialState &&
            b'.helpCount == b.helpCount && b'.showHelp == b.showHelp
  {
  }

  /** The events of a round once the board is dealt. */
  datatype PlayEvent =
    | RevealExpired(now: int)
    | CellClick(index: int, now: int)
    | AskHelp
    | HelpExpired
    | ResetGame

  function Step(b: Table, e: PlayEvent): Table
  {
    match e
    case RevealExpired(now) => Reveal(b, now)
    case CellClick(index, now) => Click(b, index, now).0
    case AskHelp => Help(b)
    case HelpExpired => HelpOver(b)
    case ResetGame => Reset(b)
  }

  function Play(b: Table, es: seq<PlayEvent>): Table
    decreases |es|
  {
    if es == [] then b else Play(Step(b, es[0]), es[1..])
  }

  /** The number of helps among `es` that take effect. */
  function HelpsGranted(b: Table, es: seq<PlayEvent>): nat
    decreases |es|
  {
    if es == [] then 0
    else (if Help(b) != b && es[0].AskHelp? then 1 else 0) + HelpsGranted(Step(b, es[0]), es[1..])
  }

  /** Every event keeps the invariant, and only a help that takes effect
      changes the help count, by one. */
  lemma StepKeeps(b: Table, e: PlayEvent)
    requires Invariant(b)
    ensures Invariant(Step(b, e))
    ensures Step(b, e).helpCount == b.helpCount - (if e.AskHelp? && Help(b) != b then 1 else 0)
  {
    match e
    case RevealExpired(now) =>
      assert Step(b, e) == Reveal(b, now);
      RevealKeeps(b, now);
    case CellClick(index, now) =>
      assert Step(b, e) == Click(b, index, now).0;
      ClickKeeps(b, index, now);
    case AskHelp =>
      assert Step(b, e) == Help(b);
      HelpSpends(b);
    case HelpExpired =>
      assert Step(b, e) == HelpOver(b);
      HelpOverKeeps(b);
    case ResetGame =>
      assert Step(b, e) == Reset(b);
      ResetKeeps(b);
  }

  /** Whatever is played, the invariant holds, and the helps that take effect
      are exactly those the count loses: with three helps per initialised
      game, at most three ever take effect. */
  lemma {:induction false} PlayKeeps(b: Table, es: seq<PlayEvent>)
    requires Invariant(b)
    ensures Invariant(Play(b, es))
    ensures HelpsGranted(b, es) == b.helpCount - Play(b, es).helpCount
    ensures HelpsGranted(b, es) <= b.helpCount
    decreases |es|
  {
    if es != [] {
      var b' := Step(b, es[0]);
      StepKeeps(b, es[0]);
      PlayKeeps(b', es[1..]);
      assert Play(b, es) == Play(b', es[1..]);
      assert HelpsGranted(b, es) == (if Help(b) != b && es[0].AskHelp? then 1 else 0) + HelpsGranted(b', es[1..]);
    }
  }

  /** Clicking the cells `idx` in turn, all at time `now`. */
  function Clicks(idx: seq<int>, now: int): seq<PlayEvent>
  {
    seq(|idx|, j requires 0 <= j < |idx| => CellClick(idx[j], now))
  }

  /** A right click that is not the last keeps the round going, one number
      further. */
  lemma RightClickAdvances(b: Table, index: int, now: int)
    requires Invariant(b) && b.state.gameStarted && !b.state.revealed
    requires 0 <= index < |b.state.numbers| && b.state.numbers[index] == |b.state.selectedNumbers| + 1
    requires |b.state.selectedNumbers| + 1 < |b.state.numbers|
    ensures var b' := Click(b, index, now).0;
            Invariant(b') && b'.state.gameStarted && !b'.state.revealed &&
            b'.state.numbers == b.state.numbers && b'.state.startTime == b.state.startTime &&
            |b'.state.selectedNumbers| == |b.state.selectedNumbers| + 1
  {
    ClickOutcome(b, index, now);
    ClickKeeps(b, index, now);
  }

  /** The right click on the last number wins. */
  lemma LastClickWins(b: Table, index: int, now: int)
    requires Invariant(b) && b.state.gameStarted && !b.state.revealed
    requires 0 <= index < |b.state.numbers| && b.state.numbers[index] == |b.state.selectedNumbers| + 1
    requires |b.state.selectedNumbers| + 1 == |b.state.numbers|
    ensures Click(b, index, now).1 == Some(now - OrZero(b.state.startTime))
  {
  }

  lemma ClicksSplit(idx: seq<int>, now: int)
    requires |idx| > 1
    ensures Clicks(idx[..|idx| - 1], now) == [CellClick(idx[0], now)] + Clicks(idx[1..][..|idx| - 2], now)
  {
  }

  /** A round being played is won by clicking the cells of the missing numbers
      in ascending order: the last click reports the time since the start. */
  lemma {:induction false} RightClicksWin(b: Table, idx: seq<int>, now: int)
    requires Invariant(b) && b.state.gameStarted && !b.state.revealed
    requires |idx| > 0 && |b.state.selectedNumbers| + |idx| == |b.state.numbers|
    requires forall j :: 0 <= j < |idx| ==>
               0 <= idx[j] < |b.state.numbers| && b.state.numbers[idx[j]] == |b.state.selectedNumbers| + j + 1
    ensures var last := Play(b, Clicks(idx[..|idx| - 1], now));
            Click(last, idx[|idx| - 1], now).1 == Some(now - OrZero(b.state.startTime))
    decreases |idx|
  {
    if |idx| > 1 {
      var b' := Click(b, idx[0], now).0;
      RightClickAdvances(b, idx[0], now);
      var rest := idx[1..];
      forall j | 0 <= j < |rest|
        ensures 0 <= rest[j] < |b'.state.numbers| && b'.state.numbers[rest[j]] == |b'.state.selectedNumbers| + j + 1
      {
        assert rest[j] == idx[j + 1];
      }
      RightClicksWin(b', rest, now);
      ClicksSplit(idx, now);
      var es := Clicks(idx[..|idx| - 1], now);
      assert es[1..] == Clicks(rest[..|rest| - 1], now);
      assert Play(b, es) == Play(Step(b, es[0]), es[1..]);
    } else {
      assert Clicks(idx[..0], now) == [];
      LastClickWins(b, idx[0], now);
    }
  }

  // ------------------------------------------------------------------------
  // The component

  /** The Memory Table component: its four state fields, updated in place by
      the handlers. */
  class MemoryTable {
    var difficulty: Option<Difficulty>
    var state: MemoryTableState
    var showHelp: bool
    var helpCount: int

    /** The component's state as a value. */
    ghost function Model(): Table
      reads this
    {
      Table(difficulty, state, showHelp, helpCount)
    }

    ghost predicate Valid()
      reads this
    {
      Invariant(Model())
    }

    constructor ()
      ensures Valid() && Model() == InitialTable
    {
      difficulty := None;
      state := InitialState;
      showHelp := false;
      helpCount := HelpBudget;
      InitialInvariant();
    }

    /** `initializeGame(diff)`, the shuffle's order given by `perm`. */
    method InitializeGame(diff: Difficulty, perm: seq<nat>)
      requires IsIndexPermutation(perm, Cells(diff))
      modifies this
      ensures Valid() && Model() == Initialize(old(Model()), diff, perm)
    {
      var size := GetDifficultySize(diff.Name());
      var numbers := Shuffle(size * size, perm);
      difficulty := Some(diff);
      helpCount := HelpBudget;
      state := MemoryTableState(size, numbers, true, [], None, None, false);
      InitializeEstablishes(old(Model()), diff, perm);
    }

    /** The reveal timeout firing at time `now`. */
    method RevealExpired(now: int)
      requires Valid()
      modifies this
      ensures Valid() && Model() == Reveal(old(Model()), now)
    {
      state := state.(revealed := false, startTime := Some(now), gameStarted := true);
      RevealKeeps(old(Model()), now);
    }

    /** `handleCellClick(index)` at time `now`; `completedIn` is the time
      passed to `onGameComplete`, if the click completed the round. */
    method HandleCellClick(index: int, now: int) returns (completedIn: Option<int>)
      requires Valid()
      modifies this
      ensures Valid() && (Model(), completedIn) == Click(old(Model()), index, now)
    {
      ghost var before := Model();
      ClickKeeps(before, index, now);
      completedIn := None;
      if !state.gameStarted || state.revealed {
        return;
      }
      var expected := |state.selectedNumbers| + 1;
      if 0 <= index < |state.numbers| && state.numbers[index] == expected {
        var selected := state.selectedNumbers + [expected];
        if |selected| == |state.numbers| {
          var started := state.startTime;
          state := state.(endTime := Some(now), gameStarted := false);
          completedIn := Some(now - OrZero(started));
          assert Model() == Click(before, index, now).0;
        } else {
          state := state.(selectedNumbers := selected);
          assert Model() == Click(before, index, now).0;
        }
      } else {
        state := state.(selectedNumbers := []);
        assert Model() == Click(before, index, now).0;
      }
    }

    method HandleHelp()
      requires Valid()
      modifies this
      ensures Valid() && Model() == Help(old(Model()))
    {
      if helpCount > 0 && state.gameStarted && !state.revealed {
        showHelp := true;
        helpCount := helpCount - 1;
      }
    }

    /** The help timeout firing. */
    method HelpExpired()
      requires Valid()
      modifies this
      ensures Valid() && Model() == HelpOver(old(Model()))
    {
      showHelp := false;
    }

    /** The reset button (the session's `onReset` is a separate step). */
    method ResetGame()
      requires Valid()
      modifies this
      ensures Valid() && Model() == Reset(old(Model()))
    {
      difficulty := None;
      state := InitialState;
    }
  }
}
