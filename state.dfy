/** The application's run flag (src/state.rs). */
module AppState {
  class State {
    var running: bool

    /** `State::default`: a new state is running. */
    constructor ()
      ensures running
    {
      running := true;
    }

    /** `running`: the flag, read without changing anything. */
    function Running(): (r: bool)
      reads this
      ensures r == running
    {
      running
    }

    /** `exit`: the flag goes down, whatever it was; nothing sets it again. */
    method Exit()
      modifies this
      ensures !running
    {
      running := false;
    }
  }

  /** A state runs until its first exit, and a second exit leaves it stopped. */
  method ExitExample() returns (before: bool, after: bool, again: bool)
    ensures before && !after && !again
  {
    var s := new State();
    before := s.Running();
    s.Exit();
    after := s.Running();
    s.Exit();
    again := s.Running();
  }
}
