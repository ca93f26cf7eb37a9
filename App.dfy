/** The session shell (src/App.tsx): which game is open, and the completion
    banner that shows the time a game reported. */
module App {
  import opened GameTypes
  import opened Text
  import Timer

  /** `formatTime(ms)`: milliseconds shown as minutes, a colon and two-digit
      seconds. */
  function FormatTime(ms: nat): string
  {
    var seconds := ms / 1000;
    var minutes := seconds / 60;
    var remainingSeconds := seconds % 60;
    NatToString(minutes) + ":" + PadStart(NatToString(remainingSeconds), 2, '0')
  }

  /** The banner shows the same text the game timer shows for the whole
      seconds elapsed. */
  lemma AgreesWithTimer(ms: nat)
    ensures FormatTime(ms) == Timer.FormatTime(ms / 1000)
  {
    var seconds := ms / 1000;
    assert FormatTime(ms) == NatToString(seconds / 60) + ":" + PadStart(NatToString(seconds % 60), 2, '0');
  }

  /** The banner's text reads back as the whole seconds elapsed: fractions of
      a second are dropped and nothing else is lost. */
  lemma FormatTimeReadsBack(ms: nat)
    ensures Timer.ParseTime(FormatTime(ms)) == Some(ms / 1000)
  {
    AgreesWithTimer(ms);
    Timer.FormatParse(ms / 1000);
  }

  /** Anything from 65 up to 66 seconds shows as "1:05". */
  lemma FormatTimeExample(ms: nat)
    requires 65000 <= ms < 66000
    ensures FormatTime(ms) == "1:05"
  {
    AgreesWithTimer(ms);
    assert ms / 1000 == 65;
    Timer.FormatMinuteFive();
  }

  /** Less than a second shows as "0:00". */
  lemma FormatTimeUnderASecond(ms: nat)
    requires ms < 1000
    ensures FormatTime(ms) == "0:00"
  {
    AgreesWithTimer(ms);
    assert ms / 1000 == 0;
    Timer.FormatZero();
  }

  // ------------------------------------------------------------------------
  // The session state

  /** The three state fields of the shell. */
  datatype Session = Session(selectedGame: Option<GameType>, showCompletionMessage: bool, completionTime: Option<int>)

  const InitialSession: Session := Session(None, false, None)

  /** `handleGameComplete(time)`. */
  function Complete(s: Session, time: int): Session
  {
    s.(completionTime := Some(time), showCompletionMessage := true)
  }

  /** `handleReset`. */
  function Dismiss(s: Session): Session
  {
    s.(showCompletionMessage := false, completionTime := None)
  }

  /** `showCompletionMessage && completionTime`: a time of 0 is falsy, so it
      shows no banner. */
  predicate BannerVisible(s: Session)
  {
    s.showCompletionMessage && Truthy(s.completionTime)
  }

  /** After a completion the banner shows exactly when the reported time is
      not zero, and it shows that time; the open game is untouched. */
  lemma CompleteShowsBanner(s: Session, time: int)
    ensures BannerVisible(Complete(s, time)) <==> time != 0
    ensures Complete(s, time).completionTime == Some(time)
    ensures Complete(s, time).selectedGame == s.selectedGame
  {
  }

  /** After a reset no banner shows, and the open game is untouched. */
  lemma DismissHidesBanner(s: Session)
    ensures !BannerVisible(Dismiss(s))
    ensures Dismiss(s).completionTime == None && !Dismiss(s).showCompletionMessage
    ensures Dismiss(s).selectedGame == s.selectedGame
  {
  }

  /** Both handlers are idempotent, and a reset undoes any completion. */
  lemma HandlersIdempotent(s: Session, time: int)
    ensures Complete(Complete(s, time), time) == Complete(s, time)
    ensures Dismiss(Dismiss(s)) == Dismiss(s)
    ensures Dismiss(Complete(s, time)) == Dismiss(s)
  {
  }

  /** The shell component: its three state fields, set by the handlers. */
  class App {
    var selectedGame: Option<GameType>
    var showCompletionMessage: bool
    var completionTime: Option<int>

    /** The component's state as a value. */
    ghost function Model(): Session
      reads this
    {
      Session(selectedGame, showCompletionMessage, completionTime)
    }

    constructor ()
      ensures Model() == InitialSession
    {
      selectedGame := None;
      showCompletionMessage := false;
      completionTime := None;
    }

    /** `handleGameComplete(time)`, the games' `onGameComplete`. */
    method HandleGameComplete(time: int)
      modifies this
      ensures Model() == Complete(old(Model()), time)
    {
      completionTime := Some(time);
      showCompletionMessage := true;
    }

    /** `handleReset`, the games' `onReset`. */
    method HandleReset()
      modifies this
      ensures Model() == Dismiss(old(Model()))
    {
      showCompletionMessage := false;
      completionTime := None;
    }

    /** Choosing a game on the selection screen. */
    method SelectGame(game: GameType)
      modifies this
      ensures Model() == old(Model()).(selectedGame := Some(game))
    {
      selectedGame := Some(game);
    }

    /** The "Back to Games" button. */
    method BackToGames()
      modifies this
      ensures Model() == old(Model()).(selectedGame := None)
    {
      selectedGame := None;
    }

    /** The banner's "Play Another Game" button: reset, then back to the
      selection screen. */
    method PlayAnotherGame()
      modifies this
      ensures Model() == InitialSession
    {
      HandleReset();
      selectedGame := None;
    }

    /** Whether the completion banner is rendered. */
    method ShowsBanner() returns (visible: bool)
      ensures visible == BannerVisible(Model())
    {
      visible := BannerVisible(Session(selectedGame, showCompletionMessage, completionTime));
    }
  }
}
