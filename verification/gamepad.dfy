/** The robot dog's gamepad buttons (client/apps/rtc_console/vehicle_control_sender.cpp): a lateral
    command that is retried and repeated as a heartbeat, and two buttons that fire once per press.
    Whether the link accepts a command is an input; the clock need not be monotone. */
module Gamepad {
  import opened Options

  datatype Action = LateralStop | LateralLeft | LateralRight | Stand | LieDown

  /** What the send callback would answer to each of the up to three commands of one call. */
  datatype Answers = Answers(lateral: bool, stand: bool, lieDown: bool)

  datatype Buttons = Buttons(left: bool, right: bool, stand: bool, lieDown: bool)

  datatype Mark =
    | Sent(action: Action, speed: real, changed: bool, atMs: nat, accepted: bool)
    | DisconnectStop(accepted: bool)
    | Released(button: Action)
    | Disconnected
    | Cleared

  datatype State = State(lateral: int, lastMs: nat, stand: bool, lieDown: bool)

  datatype Call =
    | Update(buttons: Buttons, speed: real, nowMs: nat, send: Option<Answers>)
    | StopForDisconnect(stopSend: Option<bool>)
    | Reset

  const INITIAL := State(0, 0, false, false)

  function Heartbeat(requested: nat): nat {
    if requested == 0 then 100 else requested
  }

  function Desired(buttons: Buttons): int {
    if buttons.left == buttons.right then 0 else if buttons.left then -1 else 1
  }

  function LateralAction(direction: int): Action {
    if direction < 0 then LateralLeft else if direction > 0 then LateralRight else LateralStop
  }

  // ----- One call as a function of the state -----

  predicate LateralDue(s: State, heartbeatMs: nat, desired: int, nowMs: nat) {
    desired != s.lateral || (desired != 0 && nowMs >= s.lastMs && nowMs - s.lastMs >= heartbeatMs)
  }

  function StepLateral(s: State, heartbeatMs: nat, desired: int, speed: real, nowMs: nat, accepted: bool)
    : (State, seq<Mark>)
  {
    if !LateralDue(s, heartbeatMs, desired, nowMs) then (s, [])
    else
      (if accepted then s.(lateral := desired, lastMs := nowMs) else s,
       [Sent(LateralAction(desired), speed, desired != s.lateral, nowMs, accepted)])
  }

  predicate IsButton(action: Action) { action == Stand || action == LieDown }

  function HeldDown(s: State, button: Action): bool { if button == Stand then s.stand else s.lieDown }

  function SetHeld(s: State, button: Action, held: bool): State {
    if button == Stand then s.(stand := held) else s.(lieDown := held)
  }

  function StepButton(s: State, button: Action, pressed: bool, nowMs: nat, accepted: bool): (State, seq<Mark>)
    requires IsButton(button)
  {
    if !pressed then (SetHeld(s, button, false), [Released(button)])
    else if HeldDown(s, button) then (s, [])
    else (SetHeld(s, button, accepted), [Sent(button, 0.0, true, nowMs, accepted)])
  }

  function StepUpdate(s: State, heartbeatMs: nat, b: Buttons, speed: real, nowMs: nat, answers: Answers)
    : (State, seq<Mark>)
  {
    var (s1, m1) := StepLateral(s, heartbeatMs, Desired(b), speed, nowMs, answers.lateral);
    var (s2, m2) := StepButton(s1, Stand, b.stand, nowMs, answers.stand);
    var (s3, m3) := StepButton(s2, LieDown, b.lieDown, nowMs, answers.lieDown);
    (s3, m1 + m2 + m3)
  }

  function StepDisconnect(s: State, send: Option<bool>): (State, seq<Mark>) {
    var up := s.(stand := false, lieDown := false);
    if s.lateral == 0 || send.None? then (up, [Disconnected])
    else (if send.value then up.(lateral := 0, lastMs := 0) else up, [Disconnected, DisconnectStop(send.value)])
  }

  function Step(s: State, heartbeatMs: nat, call: Call): (State, seq<Mark>) {
    match call
    case Update(b, speed, nowMs, None) => (s, [])
    case Update(b, speed, nowMs, Some(answers)) => StepUpdate(s, heartbeatMs, b, speed, nowMs, answers)
    case StopForDisconnect(send) => StepDisconnect(s, send)
    case Reset => (INITIAL, [Cleared])
  }

  function Run(heartbeatMs: nat, calls: seq<Call>): (State, seq<Mark>) {
    if |calls| == 0 then (INITIAL, [])
    else
      var (s, log) := Run(heartbeatMs, calls[..|calls| - 1]);
      var (s', marks) := Step(s, heartbeatMs, calls[|calls| - 1]);
      (s', log + marks)
  }

  // ----- Reading the log -----

  /** The direction a mark puts the dog in, if it is an accepted lateral command. */
  function DirectionOf(m: Mark): Option<int> {
    match m
    case Sent(LateralLeft, _, _, _, true) => Some(-1)
    case Sent(LateralRight, _, _, _, true) => Some(1)
    case Sent(LateralStop, _, _, _, true) => Some(0)
    case DisconnectStop(true) => Some(0)
    case _ => None
  }

  /** The last accepted lateral command, as far as the client can know: nothing, after a reset. */
  function LastLateral(log: seq<Mark>): Option<Mark> {
    if |log| == 0 then None
    else
      var m := log[|log| - 1];
      if m.Cleared? then None
      else if DirectionOf(m).Some? then Some(m)
      else LastLateral(log[..|log| - 1])
  }

  function Direction(log: seq<Mark>): int {
    var last := LastLateral(log);
    if last.Some? && DirectionOf(last.value).Some? then DirectionOf(last.value).value else 0
  }

  /** The direction the dog is really in: a reset does not move it. */
  function TrueDirection(log: seq<Mark>): int {
    if |log| == 0 then 0
    else if DirectionOf(log[|log| - 1]).Some? then DirectionOf(log[|log| - 1]).value
    else TrueDirection(log[..|log| - 1])
  }

  predicate Fired(m: Mark, button: Action) {
    m.Sent? && m.action == button && m.accepted
  }

  predicate LetsGo(m: Mark, button: Action) {
    m == Released(button) || m.Disconnected? || m.Cleared?
  }

  /** The button's command was accepted and nothing let go of it since. */
  predicate Held(log: seq<Mark>, button: Action) {
    |log| > 0
    && var m := log[|log| - 1];
    (Fired(m, button) || (!LetsGo(m, button) && Held(log[..|log| - 1], button)))
  }

  /** What a mark owes to the log before it. */
  predicate Justified(before: seq<Mark>, m: Mark, heartbeatMs: nat) {
    && (DirectionOf(m).Some? && DirectionOf(m).value == Direction(before) ==>
          && m.Sent? && m.action != LateralStop && !m.changed
          && LastLateral(before).Some? && LastLateral(before).value.Sent?
          && m.atMs >= LastLateral(before).value.atMs + heartbeatMs)
    && (Fired(m, Stand) ==> !Held(before, Stand))
    && (Fired(m, LieDown) ==> !Held(before, LieDown))
  }

  predicate AllJustified(log: seq<Mark>, heartbeatMs: nat) {
    forall n :: 0 <= n < |log| ==> Justified(log[..n], log[n], heartbeatMs)
  }

  predicate Inv(s: State, log: seq<Mark>, heartbeatMs: nat) {
    && s.lateral == Direction(log)
    && (s.lateral != 0 ==> LastLateral(log).Some? && LastLateral(log).value.Sent? && LastLateral(log).value.atMs == s.lastMs)
    && s.stand == Held(log, Stand) && s.lieDown == Held(log, LieDown)
    && AllJustified(log, heartbeatMs)
  }

  // ----- What is sent -----

  /** The command the buttons ask for. Both or neither of left and right ask for a stop. */
  function Asked(left: bool, right: bool): Action {
    match (left, right)
    case (true, false) => LateralLeft
    case (false, true) => LateralRight
    case _ => LateralStop
  }

  /** The command the lateral state stands for. */
  predicate InEffect(s: State, action: Action) {
    match action
    case LateralLeft => s.lateral == -1
    case LateralRight => s.lateral == 1
    case LateralStop => s.lateral == 0
    case _ => false
  }

  predicate IsLateral(m: Mark) {
    m.Sent? && m.action in {LateralStop, LateralLeft, LateralRight}
  }

  lemma ButtonsAreNotLateral(s: State, button: Action, pressed: bool, nowMs: nat, accepted: bool)
    requires IsButton(button)
    ensures var (t, marks) := StepButton(s, button, pressed, nowMs, accepted);
            && t.lateral == s.lateral && t.lastMs == s.lastMs && forall m :: m in marks ==> !IsLateral(m)
  {
  }

  lemma LateralAsked(s: State, heartbeatMs: nat, b: Buttons, speed: real, nowMs: nat, accepted: bool)
    requires -1 <= s.lateral <= 1
    ensures var (t, marks) := StepLateral(s, heartbeatMs, Desired(b), speed, nowMs, accepted);
            var asked := Asked(b.left, b.right);
            if !InEffect(s, asked) || (asked != LateralStop && nowMs >= s.lastMs + heartbeatMs) then
              && marks == [Sent(asked, speed, !InEffect(s, asked), nowMs, accepted)]
              && (if accepted then InEffect(t, asked) && t.lastMs == nowMs else t == s)
            else marks == [] && t == s
  {
  }

  /** An update sends the command the buttons ask for when it is not the one in effect, and again when a
      heartbeat has passed since a command to move was sent; no other lateral command. */
  lemma LateralCommand(s: State, heartbeatMs: nat, b: Buttons, speed: real, nowMs: nat, answers: Answers)
    requires -1 <= s.lateral <= 1
    ensures var (t, marks) := Step(s, heartbeatMs, Update(b, speed, nowMs, Some(answers)));
            var asked := Asked(b.left, b.right);
            if !InEffect(s, asked) || (asked != LateralStop && nowMs >= s.lastMs + heartbeatMs) then
              && |marks| > 0 && marks[0] == Sent(asked, speed, !InEffect(s, asked), nowMs, answers.lateral)
              && (forall m :: m in marks[1..] ==> !IsLateral(m))
              && (if answers.lateral then InEffect(t, asked) && t.lastMs == nowMs
                  else t.lateral == s.lateral && t.lastMs == s.lastMs)
            else
              && (forall m :: m in marks ==> !IsLateral(m))
              && t.lateral == s.lateral && t.lastMs == s.lastMs
  {
    hide StepLateral, StepButton, InEffect, IsLateral;
    var (s1, m1) := StepLateral(s, heartbeatMs, Desired(b), speed, nowMs, answers.lateral);
    var (s2, m2) := StepButton(s1, Stand, b.stand, nowMs, answers.stand);
    var (s3, m3) := StepButton(s2, LieDown, b.lieDown, nowMs, answers.lieDown);
    LateralAsked(s, heartbeatMs, b, speed, nowMs, answers.lateral);
    ButtonsAreNotLateral(s1, Stand, b.stand, nowMs, answers.stand);
    ButtonsAreNotLateral(s2, LieDown, b.lieDown, nowMs, answers.lieDown);
    SameEffect(s1, s3);
    assert m1 == [] ==> m1 + m2 + m3 == m2 + m3;
    assert |m1| == 1 ==> (m1 + m2 + m3)[1..] == m2 + m3 && (m1 + m2 + m3)[0] == m1[0];
  }

  lemma SameEffect(s: State, t: State)
    requires s.lateral == t.lateral
    ensures forall action :: InEffect(s, action) <==> InEffect(t, action)
  {
  }

  /** Left held alone from rest sends LateralLeft at the given speed, right held alone LateralRight. */
  lemma PressMoves(s: State, heartbeatMs: nat, stand: bool, lieDown: bool, speed: real, nowMs: nat, answers: Answers)
    requires s.lateral == 0
    ensures var left := Buttons(true, false, stand, lieDown);
            var (t, marks) := Step(s, heartbeatMs, Update(left, speed, nowMs, Some(answers)));
            && |marks| > 0 && marks[0] == Sent(LateralLeft, speed, true, nowMs, answers.lateral)
            && (answers.lateral ==> InEffect(t, LateralLeft) && t.lastMs == nowMs)
    ensures var right := Buttons(false, true, stand, lieDown);
            var (t, marks) := Step(s, heartbeatMs, Update(right, speed, nowMs, Some(answers)));
            && |marks| > 0 && marks[0] == Sent(LateralRight, speed, true, nowMs, answers.lateral)
            && (answers.lateral ==> InEffect(t, LateralRight) && t.lastMs == nowMs)
  {
    hide Step;
    LateralCommand(s, heartbeatMs, Buttons(true, false, stand, lieDown), speed, nowMs, answers);
    LateralCommand(s, heartbeatMs, Buttons(false, true, stand, lieDown), speed, nowMs, answers);
  }

  /** Letting go of both, or holding both, stops a moving dog. */
  lemma ReleaseStops(s: State, heartbeatMs: nat, held: bool, stand: bool, lieDown: bool, speed: real, nowMs: nat,
                     answers: Answers)
    requires s.lateral == -1 || s.lateral == 1
    ensures var (t, marks) := Step(s, heartbeatMs, Update(Buttons(held, held, stand, lieDown), speed, nowMs, Some(answers)));
            && |marks| > 0 && marks[0] == Sent(LateralStop, speed, true, nowMs, answers.lateral)
            && (answers.lateral ==> InEffect(t, LateralStop))
            && (!answers.lateral ==> t.lateral == s.lateral)
  {
    hide Step;
    LateralCommand(s, heartbeatMs, Buttons(held, held, stand, lieDown), speed, nowMs, answers);
  }

  /** A pressed button that is not held yet sends its command, a held one nothing, a released one is let
      go of. */
  lemma ButtonCommand(s: State, button: Action, pressed: bool, nowMs: nat, accepted: bool)
    requires button == Stand || button == LieDown
    ensures var (t, marks) := StepButton(s, button, pressed, nowMs, accepted);
            var held := if button == Stand then s.stand else s.lieDown;
            && marks == (if !pressed then [Released(button)]
                         else if held then []
                         else [Sent(button, 0.0, true, nowMs, accepted)])
            && (button == Stand ==> t.lieDown == s.lieDown && t.stand == (pressed && (held || accepted)))
            && (button == LieDown ==> t.stand == s.stand && t.lieDown == (pressed && (held || accepted)))
  {
  }

  // ----- Every run keeps the invariant -----

  lemma Push(log: seq<Mark>, m: Mark, heartbeatMs: nat)
    requires AllJustified(log, heartbeatMs) && Justified(log, m, heartbeatMs)
    ensures AllJustified(log + [m], heartbeatMs)
    ensures LastLateral(log + [m])
         == if m.Cleared? then None else if DirectionOf(m).Some? then Some(m) else LastLateral(log)
    ensures forall button :: Held(log + [m], button) <==> Fired(m, button) || (!LetsGo(m, button) && Held(log, button))
  {
    assert (log + [m])[..|log|] == log;
    forall n | 0 <= n < |log + [m]|
      ensures Justified((log + [m])[..n], (log + [m])[n], heartbeatMs)
    {
      assert n < |log| ==> (log + [m])[..n] == log[..n];
      assert (log + [m])[..|log|] == log;
    }
  }

  lemma LateralKeepsInv(s: State, log: seq<Mark>, heartbeatMs: nat, desired: int, speed: real, nowMs: nat, accepted: bool)
    requires Inv(s, log, heartbeatMs) && -1 <= desired <= 1
    ensures var (s', marks) := StepLateral(s, heartbeatMs, desired, speed, nowMs, accepted);
            Inv(s', log + marks, heartbeatMs)
  {
    hide Held, LastLateral, AllJustified;
    if LateralDue(s, heartbeatMs, desired, nowMs) {
      Push(log, Sent(LateralAction(desired), speed, desired != s.lateral, nowMs, accepted), heartbeatMs);
    } else {
      assert log + [] == log;
    }
  }

  lemma ButtonKeepsInv(s: State, log: seq<Mark>, heartbeatMs: nat, button: Action, pressed: bool, nowMs: nat,
                       accepted: bool)
    requires Inv(s, log, heartbeatMs) && IsButton(button)
    ensures var (s', marks) := StepButton(s, button, pressed, nowMs, accepted); Inv(s', log + marks, heartbeatMs)
  {
    hide Held, LastLateral, AllJustified;
    assert log + [] == log;
    Push(log, Released(button), heartbeatMs);
    if !HeldDown(s, button) {
      Push(log, Sent(button, 0.0, true, nowMs, accepted), heartbeatMs);
    }
  }

  lemma DownKeepsInv(s: State, log: seq<Mark>, heartbeatMs: nat)
    requires Inv(s, log, heartbeatMs)
    ensures Inv(s.(stand := false, lieDown := false), log + [Disconnected], heartbeatMs)
  {
    hide Held, LastLateral, AllJustified;
    Push(log, Disconnected, heartbeatMs);
  }

  lemma StopKeepsInv(s: State, log: seq<Mark>, heartbeatMs: nat, accepted: bool)
    requires Inv(s, log, heartbeatMs) && s.lateral != 0
    ensures Inv(if accepted then s.(lateral := 0, lastMs := 0) else s, log + [DisconnectStop(accepted)], heartbeatMs)
  {
    hide Held, LastLateral, AllJustified;
    Push(log, DisconnectStop(accepted), heartbeatMs);
  }

  lemma DisconnectKeepsInv(s: State, log: seq<Mark>, heartbeatMs: nat, send: Option<bool>)
    requires Inv(s, log, heartbeatMs)
    ensures var (s', marks) := StepDisconnect(s, send); Inv(s', log + marks, heartbeatMs)
  {
    hide Inv;
    DownKeepsInv(s, log, heartbeatMs);
    if s.lateral != 0 && send.Some? {
      StopKeepsInv(s.(stand := false, lieDown := false), log + [Disconnected], heartbeatMs, send.value);
      assert log + [Disconnected, DisconnectStop(send.value)] == log + [Disconnected] + [DisconnectStop(send.value)];
    }
  }

  lemma StepKeepsInv(s: State, log: seq<Mark>, heartbeatMs: nat, call: Call)
    requires Inv(s, log, heartbeatMs)
    ensures var (s', marks) := Step(s, heartbeatMs, call); Inv(s', log + marks, heartbeatMs)
  {
    hide Inv;
    match call
    case Update(b, speed, nowMs, None) =>
      assert log + [] == log;
    case Update(b, speed, nowMs, Some(answers)) =>
      var (s1, m1) := StepLateral(s, heartbeatMs, Desired(b), speed, nowMs, answers.lateral);
      LateralKeepsInv(s, log, heartbeatMs, Desired(b), speed, nowMs, answers.lateral);
      var (s2, m2) := StepButton(s1, Stand, b.stand, nowMs, answers.stand);
      ButtonKeepsInv(s1, log + m1, heartbeatMs, Stand, b.stand, nowMs, answers.stand);
      var (s3, m3) := StepButton(s2, LieDown, b.lieDown, nowMs, answers.lieDown);
      ButtonKeepsInv(s2, log + m1 + m2, heartbeatMs, LieDown, b.lieDown, nowMs, answers.lieDown);
      assert log + (m1 + m2 + m3) == log + m1 + m2 + m3;
    case StopForDisconnect(send) =>
      DisconnectKeepsInv(s, log, heartbeatMs, send);
    case Reset =>
      ResetKeepsInv(s, log, heartbeatMs);
  }

  lemma ResetKeepsInv(s: State, log: seq<Mark>, heartbeatMs: nat)
    requires Inv(s, log, heartbeatMs)
    ensures Inv(INITIAL, log + [Cleared], heartbeatMs)
  {
    hide Held, LastLateral, AllJustified;
    Push(log, Cleared, heartbeatMs);
  }

  lemma {:induction false} RunKeepsInv(heartbeatMs: nat, calls: seq<Call>)
    ensures Inv(Run(heartbeatMs, calls).0, Run(heartbeatMs, calls).1, heartbeatMs)
  {
    if |calls| == 0 {
    } else {
      RunKeepsInv(heartbeatMs, calls[..|calls| - 1]);
      var (s, log) := Run(heartbeatMs, calls[..|calls| - 1]);
      StepKeepsInv(s, log, heartbeatMs, calls[|calls| - 1]);
    }
  }

  // ----- What the invariant means -----

  /** The end of the log has a reset that no accepted lateral command follows. */
  predicate Forgotten(log: seq<Mark>) {
    |log| > 0
    && var m := log[|log| - 1];
    (m.Cleared? || (DirectionOf(m).None? && Forgotten(log[..|log| - 1])))
  }

  lemma {:induction false} ForgottenLooksStopped(log: seq<Mark>)
    ensures Direction(log) == if Forgotten(log) then 0 else TrueDirection(log)
  {
    if |log| == 0 {
    } else {
      ForgottenLooksStopped(log[..|log| - 1]);
    }
  }

  /** The lateral state is what the dog was last told, unless a reset made the client forget a
      command that was not a stop. */
  lemma LateralIsLastAcceptedIff(heartbeatMs: nat, calls: seq<Call>)
    ensures var (s, log) := Run(heartbeatMs, calls);
            s.lateral == TrueDirection(log) <==> !Forgotten(log) || TrueDirection(log) == 0
  {
    RunKeepsInv(heartbeatMs, calls);
    ForgottenLooksStopped(Run(heartbeatMs, calls).1);
  }

  // ----- The exact condition on resets -----

  lemma OneMoreMark(log: seq<Mark>, m: Mark)
    ensures TrueDirection(log + [m]) == if DirectionOf(m).Some? then DirectionOf(m).value else TrueDirection(log)
  {
    assert (log + [m])[..|log|] == log;
  }

  /** The lateral state is the direction the dog is really in. */
  predicate Agrees(s: State, log: seq<Mark>) {
    s.lateral == TrueDirection(log)
  }

  lemma LateralKeepsAgreement(s: State, log: seq<Mark>, heartbeatMs: nat, desired: int, speed: real, nowMs: nat,
                              accepted: bool)
    requires Agrees(s, log) && -1 <= desired <= 1
    ensures var (s', marks) := StepLateral(s, heartbeatMs, desired, speed, nowMs, accepted); Agrees(s', log + marks)
  {
    hide TrueDirection;
    assert log + [] == log;
    OneMoreMark(log, Sent(LateralAction(desired), speed, desired != s.lateral, nowMs, accepted));
  }

  lemma ButtonKeepsAgreement(s: State, log: seq<Mark>, button: Action, pressed: bool, nowMs: nat, accepted: bool)
    requires Agrees(s, log) && IsButton(button)
    ensures var (s', marks) := StepButton(s, button, pressed, nowMs, accepted); Agrees(s', log + marks)
  {
    hide TrueDirection;
    assert log + [] == log;
    OneMoreMark(log, Released(button));
    OneMoreMark(log, Sent(button, 0.0, true, nowMs, accepted));
  }

  lemma UpdateKeepsAgreement(s: State, log: seq<Mark>, heartbeatMs: nat, b: Buttons, speed: real, nowMs: nat,
                             answers: Answers)
    requires Agrees(s, log)
    ensures var (s', marks) := StepUpdate(s, heartbeatMs, b, speed, nowMs, answers); Agrees(s', log + marks)
  {
    hide Agrees;
    var (s1, m1) := StepLateral(s, heartbeatMs, Desired(b), speed, nowMs, answers.lateral);
    LateralKeepsAgreement(s, log, heartbeatMs, Desired(b), speed, nowMs, answers.lateral);
    var (s2, m2) := StepButton(s1, Stand, b.stand, nowMs, answers.stand);
    ButtonKeepsAgreement(s1, log + m1, Stand, b.stand, nowMs, answers.stand);
    var (s3, m3) := StepButton(s2, LieDown, b.lieDown, nowMs, answers.lieDown);
    ButtonKeepsAgreement(s2, log + m1 + m2, LieDown, b.lieDown, nowMs, answers.lieDown);
    assert log + (m1 + m2 + m3) == log + m1 + m2 + m3;
  }

  /** One call keeps the agreement exactly when it is not a reset of an active lateral state. */
  lemma StepKeepsAgreementIff(s: State, log: seq<Mark>, heartbeatMs: nat, call: Call)
    requires Agrees(s, log)
    ensures var (s', marks) := Step(s, heartbeatMs, call);
            Agrees(s', log + marks) <==> (call.Reset? ==> s.lateral == 0)
  {
    hide TrueDirection, StepUpdate;
    match call
    case Update(b, speed, nowMs, None) =>
      assert log + [] == log;
    case Update(b, speed, nowMs, Some(answers)) =>
      UpdateKeepsAgreement(s, log, heartbeatMs, b, speed, nowMs, answers);
    case StopForDisconnect(send) =>
      OneMoreMark(log, Disconnected);
      if s.lateral != 0 && send.Some? {
        OneMoreMark(log + [Disconnected], DisconnectStop(send.value));
        assert log + [Disconnected, DisconnectStop(send.value)] == log + [Disconnected] + [DisconnectStop(send.value)];
      }
    case Reset =>
      OneMoreMark(log, Cleared);
  }

  predicate AgreesAfter(heartbeatMs: nat, calls: seq<Call>) {
    Agrees(Run(heartbeatMs, calls).0, Run(heartbeatMs, calls).1)
  }

  predicate AlwaysAgrees(heartbeatMs: nat, calls: seq<Call>) {
    forall n :: 0 <= n <= |calls| ==> AgreesAfter(heartbeatMs, calls[..n])
  }

  /** Reset is called only while the lateral state is not active. */
  predicate ResetsWhenStopped(heartbeatMs: nat, calls: seq<Call>) {
    forall i :: 0 <= i < |calls| ==> calls[i].Reset? ==> Run(heartbeatMs, calls[..i]).0.lateral == 0
  }

  lemma OneMoreCall(heartbeatMs: nat, calls: seq<Call>, call: Call)
    ensures AlwaysAgrees(heartbeatMs, calls + [call])
       <==> AlwaysAgrees(heartbeatMs, calls) && AgreesAfter(heartbeatMs, calls + [call])
    ensures ResetsWhenStopped(heartbeatMs, calls + [call])
       <==> ResetsWhenStopped(heartbeatMs, calls) && (call.Reset? ==> Run(heartbeatMs, calls).0.lateral == 0)
  {
    hide AgreesAfter, Run;
    var all := calls + [call];
    assert all[..|calls|] == calls && all[..|calls| + 1] == all;
    assert forall i :: 0 <= i <= |calls| ==> all[..i] == calls[..i];
    assert all[|calls|] == call && forall i :: 0 <= i < |calls| ==> all[i] == calls[i];
    assert AlwaysAgrees(heartbeatMs, all) ==> AgreesAfter(heartbeatMs, all[..|calls| + 1]);
  }

  lemma AgreementAfterCall(heartbeatMs: nat, calls: seq<Call>, call: Call)
    requires AgreesAfter(heartbeatMs, calls)
    ensures AgreesAfter(heartbeatMs, calls + [call]) <==> (call.Reset? ==> Run(heartbeatMs, calls).0.lateral == 0)
  {
    hide Agrees, Step;
    assert (calls + [call])[..|calls|] == calls;
    StepKeepsAgreementIff(Run(heartbeatMs, calls).0, Run(heartbeatMs, calls).1, heartbeatMs, call);
  }

  /** The lateral state is the direction of the last accepted lateral command throughout a run
      exactly when each reset finds the lateral state inactive. */
  lemma {:induction false} AlwaysAgreesIff(heartbeatMs: nat, calls: seq<Call>)
    ensures AlwaysAgrees(heartbeatMs, calls) <==> ResetsWhenStopped(heartbeatMs, calls)
  {
    if |calls| == 0 {
      assert calls[..0] == [];
    } else {
      var before, call := calls[..|calls| - 1], calls[|calls| - 1];
      assert calls == before + [call] && before[..|before|] == before;
      AlwaysAgreesIff(heartbeatMs, before);
      OneMoreCall(heartbeatMs, before, call);
      assert AlwaysAgrees(heartbeatMs, before) ==> AgreesAfter(heartbeatMs, before[..|before|]);
      if AgreesAfter(heartbeatMs, before) {
        AgreementAfterCall(heartbeatMs, before, call);
      }
    }
  }

  lemma LateralIsLastAccepted(heartbeatMs: nat, calls: seq<Call>)
    requires ResetsWhenStopped(heartbeatMs, calls)
    ensures Run(heartbeatMs, calls).0.lateral == TrueDirection(Run(heartbeatMs, calls).1)
  {
    AlwaysAgreesIff(heartbeatMs, calls);
    assert calls[..|calls|] == calls;
    assert AgreesAfter(heartbeatMs, calls[..|calls|]);
  }

  predicate StopSucceeds(s: State, send: Option<bool>) {
    s.lateral == 0 || send == Some(true)
  }

  /** The direction the dog is in after a disconnect stop. */
  function DirectionStopped(heartbeatMs: nat, calls: seq<Call>, send: Option<bool>): int {
    var (s, log) := Run(heartbeatMs, calls);
    TrueDirection(log + StepDisconnect(s, send).1)
  }

  lemma StopTells(s: State, log: seq<Mark>, send: Option<bool>)
    ensures TrueDirection(log + StepDisconnect(s, send).1)
         == if s.lateral != 0 && send == Some(true) then 0 else TrueDirection(log)
  {
    hide TrueDirection;
    OneMoreMark(log, Disconnected);
    if s.lateral != 0 && send.Some? {
      OneMoreMark(log + [Disconnected], DisconnectStop(send.value));
      assert log + [Disconnected, DisconnectStop(send.value)] == log + [Disconnected] + [DisconnectStop(send.value)];
    }
  }

  /** A disconnect stop that reports success leaves the dog told to stop, or never told to move. */
  predicate ReportIsRight(heartbeatMs: nat, calls: seq<Call>, send: Option<bool>) {
    StopSucceeds(Run(heartbeatMs, calls).0, send) ==> DirectionStopped(heartbeatMs, calls, send) == 0
  }

  /** A report is right exactly when no reset made the client forget a command to move, that is,
      when the lateral state agrees with the log. */
  lemma ReportIsRightIff(heartbeatMs: nat, calls: seq<Call>, send: Option<bool>)
    ensures var log := Run(heartbeatMs, calls).1;
            ReportIsRight(heartbeatMs, calls, send) <==> !Forgotten(log) || TrueDirection(log) == 0
    ensures ReportIsRight(heartbeatMs, calls, send) <==> AgreesAfter(heartbeatMs, calls)
  {
    var (s, log) := Run(heartbeatMs, calls);
    RunKeepsInv(heartbeatMs, calls);
    ForgottenLooksStopped(log);
    StopTells(s, log, send);
  }

  /** All reports of a run are right, whatever the link answers, exactly when each reset finds
      the lateral state inactive. */
  lemma AllReportsRightIff(heartbeatMs: nat, calls: seq<Call>)
    ensures (forall n, send :: 0 <= n <= |calls| ==> ReportIsRight(heartbeatMs, calls[..n], send))
       <==> ResetsWhenStopped(heartbeatMs, calls)
  {
    AlwaysAgreesIff(heartbeatMs, calls);
    forall n, send | 0 <= n <= |calls|
      ensures ReportIsRight(heartbeatMs, calls[..n], send) <==> AgreesAfter(heartbeatMs, calls[..n])
    {
      ReportIsRightIff(heartbeatMs, calls[..n], send);
    }
    assert forall n :: 0 <= n <= |calls| ==>
      (ReportIsRight(heartbeatMs, calls[..n], None) <==> AgreesAfter(heartbeatMs, calls[..n]));
  }

  /** When resets find the lateral state inactive, success is reported exactly when the dog is
      then told to stop or was never told to move. */
  lemma SuccessfulStopHasStopped(heartbeatMs: nat, calls: seq<Call>, send: Option<bool>)
    requires ResetsWhenStopped(heartbeatMs, calls)
    ensures StopSucceeds(Run(heartbeatMs, calls).0, send) <==> DirectionStopped(heartbeatMs, calls, send) == 0
  {
    LateralIsLastAccepted(heartbeatMs, calls);
    StopTells(Run(heartbeatMs, calls).0, Run(heartbeatMs, calls).1, send);
  }

  /** A press and a reset are enough for a wrong report. */
  lemma ResetForgetsMotion(heartbeatMs: nat, send: Option<bool>)
    ensures var first := Update(Buttons(true, false, false, false), 0.5, 0, Some(Answers(true, true, true)));
            !ReportIsRight(heartbeatMs, [first, Reset], send)
  {
    var first := Update(Buttons(true, false, false, false), 0.5, 0, Some(Answers(true, true, true)));
    assert [first][..0] == [];
    assert ([] + [Sent(LateralLeft, 0.5, true, 0, true)] + [Released(Stand)] + [Released(LieDown)])
        == Run(heartbeatMs, [first]).1;
    UpdateKeepsAgreement(INITIAL, [], heartbeatMs, first.buttons, 0.5, 0, first.send.value);
    assert AgreesAfter(heartbeatMs, [first]) && Run(heartbeatMs, [first]).0.lateral == -1;
    assert [first, Reset][..1] == [first];
    StepKeepsAgreementIff(Run(heartbeatMs, [first]).0, Run(heartbeatMs, [first]).1, heartbeatMs, Reset);
    ReportIsRightIff(heartbeatMs, [first, Reset], send);
  }

  /** Marks i and j are accepted lateral commands with no other, and no reset, between them. */
  predicate ConsecutiveLaterals(log: seq<Mark>, i: nat, j: nat) {
    && i < j < |log| && DirectionOf(log[i]).Some? && DirectionOf(log[j]).Some?
    && forall k :: i < k < j ==> DirectionOf(log[k]).None? && !log[k].Cleared?
  }

  lemma {:induction false} LastLateralIs(log: seq<Mark>, i: nat, j: nat)
    requires ConsecutiveLaterals(log, i, j)
    ensures LastLateral(log[..j]) == Some(log[i])
    decreases j
  {
    if j > i + 1 {
      var rest := log[..j - 1] + [log[j]];
      assert rest[..j - 1] == log[..j - 1] == log[..j][..j - 1];
      assert ConsecutiveLaterals(rest, i, j - 1);
      LastLateralIs(rest, i, j - 1);
    } else {
      assert log[..j][|log[..j]| - 1] == log[i];
    }
  }

  /** Two consecutive accepted commands in the same direction are a heartbeat or more apart, and
      a stop is never repeated. */
  lemma HeartbeatsSpaced(heartbeatMs: nat, calls: seq<Call>, i: nat, j: nat)
    requires ConsecutiveLaterals(Run(heartbeatMs, calls).1, i, j)
    requires DirectionOf(Run(heartbeatMs, calls).1[i]) == DirectionOf(Run(heartbeatMs, calls).1[j])
    ensures var log := Run(heartbeatMs, calls).1;
            && log[i].Sent? && log[j].Sent? && log[i].action == log[j].action != LateralStop
            && log[j].atMs >= log[i].atMs + heartbeatMs
  {
    RunKeepsInv(heartbeatMs, calls);
    var log := Run(heartbeatMs, calls).1;
    LastLateralIs(log, i, j);
    assert Justified(log[..j], log[j], heartbeatMs);
  }

  /** A direction held for a heartbeat since its last accepted command is sent again, at the speed of that
      moment. */
  lemma HeartbeatSent(heartbeatMs: nat, calls: seq<Call>, b: Buttons, speed: real, nowMs: nat, answers: Answers)
    requires var (s, log) := Run(heartbeatMs, calls);
             && b.left != b.right && InEffect(s, Asked(b.left, b.right))
             && LastLateral(log).Some? && LastLateral(log).value.Sent?
             && nowMs >= LastLateral(log).value.atMs + heartbeatMs
    ensures var s := Run(heartbeatMs, calls).0;
            var (t, marks) := Step(s, heartbeatMs, Update(b, speed, nowMs, Some(answers)));
            && |marks| > 0 && marks[0] == Sent(Asked(b.left, b.right), speed, false, nowMs, answers.lateral)
            && (answers.lateral ==> t.lastMs == nowMs)
  {
    hide Step, AllJustified, Held, LastLateral;
    RunKeepsInv(heartbeatMs, calls);
    LateralCommand(Run(heartbeatMs, calls).0, heartbeatMs, b, speed, nowMs, answers);
  }

  lemma {:induction false} HeldUntilLetGo(log: seq<Mark>, i: nat, j: nat, button: Action)
    requires i < j <= |log| && Fired(log[i], button)
    requires forall k :: i < k < j ==> !LetsGo(log[k], button)
    ensures Held(log[..j], button)
    decreases j
  {
    if j > i + 1 {
      HeldUntilLetGo(log, i, j - 1, button);
      assert log[..j][..j - 1] == log[..j - 1];
    }
  }

  /** One press fires once: between two accepted sends of a button lies its release, a disconnect
      or a reset. */
  lemma OncePerPress(heartbeatMs: nat, calls: seq<Call>, i: nat, j: nat, button: Action)
    requires i < j < |Run(heartbeatMs, calls).1| && button in {Stand, LieDown}
    requires Fired(Run(heartbeatMs, calls).1[i], button) && Fired(Run(heartbeatMs, calls).1[j], button)
    ensures exists k :: i < k < j && LetsGo(Run(heartbeatMs, calls).1[k], button)
  {
    RunKeepsInv(heartbeatMs, calls);
    var log := Run(heartbeatMs, calls).1;
    assert Justified(log[..j], log[j], heartbeatMs);
    if forall k :: i < k < j ==> !LetsGo(log[k], button) {
      HeldUntilLetGo(log, i, j, button);
    }
  }

  // ----- The class -----

  class GamepadDogActionState {
    const lateralHeartbeatMs: nat
    var lateral: int
    var lastLateralSentMs: nat
    var stand: bool
    var lieDown: bool
    /** The commands sent and the events that let go of a button, in order. */
    ghost var log: seq<Mark>

    ghost function Abs(): State
      reads this
    {
      State(lateral, lastLateralSentMs, stand, lieDown)
    }

    ghost predicate Valid()
      reads this
    {
      Inv(Abs(), log, lateralHeartbeatMs) && -1 <= lateral <= 1
    }

    predicate LateralActive()
      reads this
    {
      lateral != 0
    }

    constructor (lateralHeartbeatMs: nat)
      ensures Valid() && Abs() == INITIAL && log == []
      ensures this.lateralHeartbeatMs == if lateralHeartbeatMs == 0 then 100 else lateralHeartbeatMs
    {
      this.lateralHeartbeatMs := Heartbeat(lateralHeartbeatMs);
      lateral, lastLateralSentMs, stand, lieDown, log := 0, 0, false, false, [];
    }

    /** The lateral half of an update. */
    method UpdateLateral(desiredLateral: int, speed: real, nowMs: nat, accepted: bool)
      requires Valid() && -1 <= desiredLateral <= 1
      modifies this
      ensures Valid()
      ensures var (s, marks) := StepLateral(old(Abs()), lateralHeartbeatMs, desiredLateral, speed, nowMs, accepted);
              Abs() == s && log == old(log) + marks
      ensures accepted ==> lateral == desiredLateral
    {
      hide Inv;
      LateralKeepsInv(Abs(), log, lateralHeartbeatMs, desiredLateral, speed, nowMs, accepted);
      var lateralChanged := desiredLateral != lateral;
      var heartbeatDue := desiredLateral != 0 && nowMs >= lastLateralSentMs
                          && nowMs - lastLateralSentMs >= lateralHeartbeatMs;
      if lateralChanged || heartbeatDue {
        var action := LateralStop;
        if desiredLateral < 0 {
          action := LateralLeft;
        } else if desiredLateral > 0 {
          action := LateralRight;
        }
        log := log + [Sent(action, speed, lateralChanged, nowMs, accepted)];
        if accepted {
          lateral := desiredLateral;
          lastLateralSentMs := nowMs;
        }
      }
    }

    /** The button half of an update. */
    method UpdateButtons(pressStand: bool, pressLieDown: bool, nowMs: nat, standAccepted: bool, lieDownAccepted: bool)
      requires Valid()
      modifies this
      ensures Valid() && lateral == old(lateral)
      ensures standAccepted && lieDownAccepted ==> stand == pressStand && lieDown == pressLieDown
      ensures var (s1, m1) := StepButton(old(Abs()), Stand, pressStand, nowMs, standAccepted);
              var (s2, m2) := StepButton(s1, LieDown, pressLieDown, nowMs, lieDownAccepted);
              Abs() == s2 && log == old(log) + m1 + m2
    {
      hide Inv;
      ButtonKeepsInv(Abs(), log, lateralHeartbeatMs, Stand, pressStand, nowMs, standAccepted);
      if !pressStand {
        stand := false;
        log := log + [Released(Stand)];
      } else if !stand {
        log := log + [Sent(Stand, 0.0, true, nowMs, standAccepted)];
        stand := standAccepted;
      }
      ButtonKeepsInv(Abs(), log, lateralHeartbeatMs, LieDown, pressLieDown, nowMs, lieDownAccepted);
      if !pressLieDown {
        lieDown := false;
        log := log + [Released(LieDown)];
      } else if !lieDown {
        log := log + [Sent(LieDown, 0.0, true, nowMs, lieDownAccepted)];
        lieDown := lieDownAccepted;
      }
    }

    method Update(buttons: Buttons, speed: real, nowMs: nat, send: Option<Answers>)
      requires Valid()
      modifies this
      ensures Valid()
      ensures var (s, marks) := Step(old(Abs()), lateralHeartbeatMs, Call.Update(buttons, speed, nowMs, send));
              Abs() == s && log == old(log) + marks
      ensures send == Some(Answers(true, true, true)) ==>
                InEffect(Abs(), Asked(buttons.left, buttons.right)) && stand == buttons.stand && lieDown == buttons.lieDown
    {
      hide Inv, StepLateral, StepButton;
      if send.None? {
        return;
      }
      var desiredLateral := if buttons.left == buttons.right then 0 else if buttons.left then -1 else 1;
      UpdateLateral(desiredLateral, speed, nowMs, send.value.lateral);
      UpdateButtons(buttons.stand, buttons.lieDown, nowMs, send.value.stand, send.value.lieDown);
    }

    method StopForDisconnect(send: Option<bool>) returns (stopped: bool)
      requires Valid()
      modifies this
      ensures Valid() && !stand && !lieDown
      ensures var (s, marks) := Step(old(Abs()), lateralHeartbeatMs, Call.StopForDisconnect(send));
              Abs() == s && log == old(log) + marks
      ensures stopped <==> StopSucceeds(old(Abs()), send)
      ensures stopped <==> lateral == 0
    {
      hide Inv;
      StepKeepsInv(Abs(), log, lateralHeartbeatMs, Call.StopForDisconnect(send));
      stand, lieDown := false, false;
      log := log + [Disconnected];
      if lateral == 0 {
        return true;
      }
      if send.None? {
        return false;
      }
      log := log + [DisconnectStop(send.value)];
      assert log == old(log) + [Disconnected, DisconnectStop(send.value)];
      if !send.value {
        return false;
      }
      lateral, lastLateralSentMs := 0, 0;
      return true;
    }

    method Reset()
      requires Valid()
      modifies this
      ensures Valid() && Abs() == INITIAL && log == old(log) + [Cleared]
      ensures old(Agrees(Abs(), log)) ==> (Agrees(Abs(), log) <==> !old(LateralActive()))
    {
      hide Inv, Agrees;
      if Agrees(Abs(), log) {
        StepKeepsAgreementIff(Abs(), log, lateralHeartbeatMs, Call.Reset);
      }
      StepKeepsInv(Abs(), log, lateralHeartbeatMs, Call.Reset);
      lateral, lastLateralSentMs, stand, lieDown := 0, 0, false, false;
      log := log + [Cleared];
    }
  }
}
