# DualSense to UDP power control: a Dafny model of its logic

The program in app.py reads a DualSense game controller and turns its analog
triggers into a motor power. Every frame it sends that power to an actuator
at 192.168.1.75:12345 as a UDP datagram holding the power's decimal text,
and it plots the power. The repository also holds a separate drawing helper,
robot.py, for planar 1R/2R robot arms; app.py does not use it. This project
models the two parts that hold logic of their own:

- `robot.dfy`, module `Robot`: the `CyclicVariable` class of robot.py. It is
  a sequence fixed at construction plus an index that starts at 0 and moves
  one place forward (`Increment`) or back (`Decrement`), wrapping at both
  ends. `Succ` and `Pred` give the index after one step; Python's `%` with a
  positive divisor, like Dafny's, never gives a negative result. `SuccIter`
  gives the index after `k` forward steps. The class methods are proved
  against these functions, and the lemmas prove that the two steps undo each
  other and that `len` forward steps make a full turn.
- `app.dfy`, module `App`: one iteration of the control loop in `main` of
  app.py, as `Session.Step`. It chooses the power from the two triggers
  (`SelectPower`, specified by `TriggerPower`). It creates the UDP client in
  the session state only when none is there. It sends one datagram, whose
  payload is `str(power).encode()`, to the fixed receiver. It appends the
  power to the history and sets the y range to `[0, max(history) + 1]`.
  `Session.Valid` is the invariant every step keeps:
  - there is one datagram per recorded power, each carrying that power's
    text, so N frames send exactly N datagrams;
  - every datagram went through the one client the session state holds, so
    later iterations reuse the client the first one found or created;
  - at most one client was created, and only into an empty slot (the count
    is a ghost field of the model, not something app.py keeps);
  - the y range is `[0, Max(history) + 1]`.
- `decimal_text.dfy`, module `DecimalText`: Python's `str` of an integer as
  UTF-8 bytes, and a reference decoder `ParsePayload` standing for the
  receiver. The lemmas prove the round trip in both directions: parsing the
  text of `n` gives `n`, and every canonical text is the text of the number
  it parses to.
- `wrappers.dfy`, module `Wrappers`: the `Option` type the other modules
  share.

Assumptions:

- The trigger readings `L2` and `R2` come from the `dualsense` module, which
  is not part of this model. They are taken as integer inputs of each step.
- `st.session_state` outlives one run of `main`, so a session is built from
  the session state that earlier runs left. That state may already hold a
  client, and then no client is created at all.
- The socket send is recorded as a `Datagram` appended to the trace `sent`.
  The datagram names the client it went through, its bytes, and the
  destination host and port.

robot.py uses the cyclic variable with a one-element sequence in
`one_rev_joint` (robot.py:26) and with the two-element sequence `[th1, th2]`
in `two2_robot` (robot.py:98-99). The model states the general contract for
any non-empty sequence, and `SingletonStaysPut` covers the one-element case,
where cycling changes nothing.

## Model

| member | source | states |
|---|---|---|
| Robot.CyclicVariable.constructor | robot.py:10-12 | the object keeps the given sequence (any sequence, even an empty one) and starts at index 0 |
| Robot.CyclicVariable.GetValue | robot.py:14-15 | on a non-empty sequence, returns the element at the current index, which is a member of the sequence |
| Robot.CyclicVariable.Increment | robot.py:17-18 | the index becomes `Succ(index, len)` and stays in `[0, len)`; the sequence is unchanged |
| Robot.CyclicVariable.Decrement | robot.py:20-21 | the index becomes `Pred(index, len)` and stays in `[0, len)`; the sequence is unchanged |
| Robot.Succ | robot.py:18 | `(i + 1) % n` lies in `[0, n)` and is `i + 1`, except that it wraps from `n - 1` to 0 |
| Robot.Pred | robot.py:21 | `(i - 1) % n` lies in `[0, n)` and is `i - 1`, except that it wraps from 0 to `n - 1` |
| Robot.SuccIter | robot.py:17-18 | any number of forward steps keeps the index in `[0, n)` |
| Robot.PredAfterSucc | robot.py:17-21 | a decrement after an increment restores the index |
| Robot.SuccAfterPred | robot.py:17-21 | an increment after a decrement restores the index |
| Robot.SuccIterNoWrap | robot.py:18 | `k` forward steps that stay before the end move the index by exactly `k` |
| Robot.SuccIterAdd | robot.py:18 | `a` forward steps followed by `b` forward steps equal `a + b` forward steps |
| Robot.FullTurnReturns | robot.py:18 | `len` forward steps bring the index back to where it started |
| Robot.SingletonStaysPut | robot.py:18-26 | with a one-element sequence, both steps leave the index at 0, so the value read never changes |
| App.Abs | app.py:46-48 | `abs` of a reading is non-negative and equals the reading or its negation |
| App.TriggerPower | app.py:45-49 | the power is 0, L2 or R2, and a non-zero power has magnitude above the deadzone 4 |
| App.SelectPower | app.py:45-49 | the loop's sequential assignments give `TriggerPower`: R2 when abs(R2) > 4, else L2 when abs(L2) > 4, else 0 |
| App.BothIdleGivesZero | app.py:45-49 | both triggers within the deadzone give power exactly 0 |
| App.RightTriggerWins | app.py:48-49 | an active R2 sets the power to R2, whatever L2 reads |
| App.LeftTriggerAlone | app.py:46-47 | an active L2 with R2 within the deadzone sets the power to L2 |
| App.Max | app.py:61 | `max(history)` is at least every recorded power |
| App.MaxAttained | app.py:61 | `max(history)` is one of the recorded powers |
| App.NegativeHistoryOutsideYRange | app.py:61 | for every non-empty history of negative powers, `max + 1 <= 0`, so `[0, max + 1]` contains none of them |
| App.Session.constructor | app.py:38 | a run starts with an empty history, no datagram sent, no y range set, no client created, and the session state as it was |
| App.Session.Step | app.py:44-61 | keeps `Valid`; the power is `TriggerPower(L2, R2)`; the client is inserted only if the session state lacks one, otherwise the state is unchanged; exactly one datagram is appended, sent through the session's client (and `Valid` keeps every datagram sent through that same client) to 192.168.1.75:12345 with payload `str(power).encode()`; exactly one entry, the power, is appended to the history; the y range becomes `[0, max(history) + 1]` |
| DecimalText.NatDigits | app.py:54 | the digits of a natural number have no leading zero, and are "0" exactly for 0 |
| DecimalText.Str | app.py:54 | `str(n)` is canonical decimal text and starts with '-' exactly when `n` is negative |
| DecimalText.StrExamples | app.py:54 | the texts of 0, 7, 255 and -128 are "0", "7", "255" and "-128" |
| DecimalText.DigitsValueOfNatDigits | app.py:54 | reading the digits of `n` gives back `n` |
| DecimalText.NatDigitsOfDigitsValue | app.py:54 | a canonical digit string is the digits of the number it denotes |
| DecimalText.ParseStr | app.py:54 | parsing `str(n)` gives `n` |
| DecimalText.StrParse | app.py:54 | every canonical text parses, and is `str` of the number it parses to |
| DecimalText.EncodeAscii | app.py:54 | `.encode()` of an ASCII text gives one byte per character; `DecodeEncodeAscii` and `EncodeAsciiAt` state that each byte is its character's code |
| DecimalText.Payload | app.py:54 | `str(power).encode()` has one byte per character of `str(power)` and is never empty; its content is stated by `PayloadBytes` (only '-' and digit bytes) and `ParsePayloadRoundTrip` (it reads back as the power) |
| DecimalText.DecodeEncodeAscii | app.py:54 | decoding the bytes of an ASCII text gives that text back |
| DecimalText.PayloadBytes | app.py:54 | a payload is non-empty and holds only the bytes of '-' and '0' to '9' |
| DecimalText.ParsePayloadRoundTrip | app.py:54-55 | the receiver reads back from a payload exactly the power that was sent |
| DecimalText.PayloadInjective | app.py:54 | different powers are sent as different payloads |

## Left out

- Forward kinematics (`getT_list` of `one_rev_joint` and `two2_robot`): these are floating-point matrix exponentials computed by the `modern_robotics` library, which is not part of this model.
- Plotting and page layout (`plot_robot`, `get_robot_figure`, `draw_axes`, the Streamlit page setup and `st.pyplot`, and `data.set_data`): these only draw. The y range that the loop sets is kept.
- Robot.CyclicVariable.constructor: keeps the sequence as a value, while robot.py:11 keeps a reference to the caller's list (`two2_robot` passes `self.thetas`, robot.py:98-99). Aliasing is not modelled; nothing in the shown code mutates that list after construction, so no behaviour is lost.
- `get_robot_figure` replaces the cyclic variable in `self.th` with a plain list (robot.py:63). That is a property of the drawing code, not of `CyclicVariable`.
- The DualSense connection, its error message and the per-frame reads (app.py:24-28, app.py:40-42): these are device I/O. The trigger values are inputs of `Session.Step`, and the thumbsticks are read but never used.
- The socket and the `ethernet` class: sending is an append to `sent`, and a failing send, which would end the loop, is not modelled.
- The unbounded `while True` loop: one iteration is `Session.Step`, and `Session.Valid` is what holds after any number of iterations.
- App.SelectPower: treats `L2` and `R2` as integers. A float reading, if the `dualsense` module produced one, would change the text `str` gives.
- Robot.CyclicVariable.GetValue, Robot.CyclicVariable.Increment, Robot.CyclicVariable.Decrement: require a non-empty sequence. Python raises an IndexError or a ZeroDivisionError on an empty one, and that crash is not modelled as a value.
