# enderscope core, modelled in Dafny

enderscope drives a converted 3D printer as a microscope stage. It has three parts:

- A motion controller that speaks G-code over a serial line (`Stage`).
- An illumination board that speaks one-letter commands over a second serial line (`EnderLights`).
- Scan-path generators (`ScanPatterns`) that produce the grid coordinates the stage is sent to, one after another.

A small control panel can also remember six stage positions and return to them.

The model is written as pure functions over immutable values:

- **`Transport`**: the shared `SerialDevice` transport.
  - The serial port is a value `Link`. It holds the lines written so far, the lines already waiting in the input buffer, and the lines the device will send later.
  - Writing frames a code with a trailing newline.
  - Reading takes the next response line.
  - Flushing drops the buffered input.
  - A read with nothing left to read would block forever in the program. The model reports that as the fault `NeverAnswered`.
  - Python exceptions become the faults `KeyError`, `IndexError` and `TypeError`.
- **`Stage`**: the motion client.
  - Its acknowledgement discipline: after each command, response lines are read and discarded until one starts with `ok`.
  - The mode-setting moves (`G90`/`G91` followed by `G0 ...`).
  - The direction table.
  - `get_position`.
  - The ghost predicate `Exchanged` states what a sequence of acknowledged commands does to the link. Every acknowledged command's contract is stated through it.
- **`PositionReport`**: parsing the `M114` report line into a dictionary or an `(X, Y, Z)` tuple.
  - A reference rendering `ReplyLine` gives the controller's report format: the three axis fields, any further fields such as Marlin's extruder `E:`, then ` Count` and the stepper counts.
  - `ParseReplyLine` proves that parsing inverts it.
  - `ParseReport` itself is specified for every line: which tokens make it fail with IndexError, which keys the mapping holds and with which values, and which missing axis makes the tuple fail with KeyError.
- **`Lights`**: the illumination client.
  - One response line per command, without waiting for `ok`.
  - The predicate `Answered` states the exchange.
- **`PositionSlots`**: the six position slots of the control panel (record or recall).
- **`ScanPatterns`**:
  - `raster` and `snake`, each with an index formula for the k-th point.
  - Proofs that both visit every grid cell exactly once.
  - A proof that snake is a permutation of raster.
  - A proof that consecutive snake points are grid neighbours.
- **`SquareSpiral`**:
  - The square spiral, written as the program's loop.
  - A proof that it equals an independent leg-by-leg reference description.
  - A closed form of the leg corners.
  - A proof that the Chebyshev distance from the origin never decreases along the path.

Coordinates, distances and light levels are kept as the text the program renders into each command (`Token`).

`Maybe` and `Text` are helpers: `Option`/`Result`, and the string operations Python supplies (`startswith`, `split`, `lower`, ...).

## Model

| member | source | states |
|---|---|---|
| Transport.Frame | serial_utils.py:67-70 | the line sent ends in a newline and starts with the code. It adds at most one character, and a code that already ends in a newline is sent unchanged |
| Transport.FrameAppendsOne | serial_utils.py:68-69 | a code without a trailing newline gets exactly one newline appended |
| Transport.FrameIdempotent | serial_utils.py:68-69 | framing an already framed line changes nothing |
| Transport.ReadLine | enderscope.py:98 | a line read succeeds exactly when some unread line is left. It returns the first unread line, consumes only that line, and writes nothing |
| Transport.Flush | serial_utils.py:63-65 | after a flush the input buffer is empty. Future lines and written lines are untouched, and the dropped lines are exactly the buffered ones, in order |
| Stage.AwaitAck | enderscope.py:99-103 | the loop ends exactly when an `ok` line occurs in the stream. It returns the first one and consumes the stream up to and including it; otherwise it never returns |
| Stage.WriteCode | enderscope.py:96-106 | the framed code is written once. Without `check_ok` the next line is returned; with it, the first `ok` line is returned and every line up to it is consumed |
| Stage.FromAckIsFirstAck | enderscope.py:99-103 | the acknowledgement search finds a line exactly when some line is an `ok`, and then it is the first such line |
| Stage.AfterAcksCount | enderscope.py:99-103 | n acknowledged commands in a row succeed exactly when the stream holds at least n `ok` lines, and they consume exactly n of them |
| Stage.AckLoopStopsAtFirstOk | enderscope.py:96-106 | if the first `ok` among the unread lines is at index i, the command returns line i and leaves exactly the lines after it unread |
| Stage.AckLoopWithoutOk | enderscope.py:96-106 | if no unread line is an `ok`, the command never returns |
| Stage.ThenExchanged | enderscope.py:108-153 | one acknowledged command followed by an acknowledged sequence is the acknowledged exchange of all their lines, including when the first one hangs |
| Stage.SetAbsolute | enderscope.py:215-216 | sends `G90` and waits for its acknowledgement |
| Stage.SetRelative | enderscope.py:212-213 | sends `G91` and waits for its acknowledgement |
| Stage.Home | enderscope.py:206-207 | sends `G28` and waits for its acknowledgement |
| Stage.FinishMoves | enderscope.py:209-210 | sends `M400` and waits for its acknowledgement |
| Stage.ModeAfterMove | enderscope.py:108-153 | after a mode line and a `G0` move, the controller's positioning mode is the one that mode line selected |
| Stage.MoveAbsolute | enderscope.py:108-123 | `G90` and then `G0 X x Y y` (with ` Z z` when z is given) are exchanged, each acknowledged, and the controller is left in absolute mode |
| Stage.MovePosition | enderscope.py:125-134 | `None` sends nothing. Two or three coordinates make an absolute move to them; any other count fails with TypeError before anything is sent |
| Stage.MoveRelative | enderscope.py:136-153 | `G91` and then `G0 X x Y y` (with ` Z z` when z is given) are exchanged, each acknowledged, and the controller is left in relative mode |
| Stage.MoveTowards | enderscope.py:155-166 | a known direction of the `DIRECTION_PREFIXES` table (lines 22-29) (in any letter case) sends `G91` and then `G0` with its axis prefix and the distance. An unknown one fails with KeyError after `G91` has been acknowledged |
| Stage.TowardsIgnoresCase | enderscope.py:165 | moving towards a direction depends only on its lower-cased name |
| Stage.TowardsIsAxisMove | enderscope.py:155-179 | moving towards a known direction is the same as moving along its axis by the signed distance |
| Stage.MoveAxis | enderscope.py:168-179 | sends `G91` and then `G0 <AXIS><distance>` with the axis upper-cased, leaving relative mode |
| Stage.GetPosition | enderscope.py:181-204 | after the flush it writes only `M114` and reads exactly two lines. A missing line hangs, a non-`ok` second line gives `None`, otherwise the parsed report or its KeyError/IndexError |
| Stage.ReportExchange | enderscope.py:189-204 | with a report line and an `ok` waiting, the query returns the parsed report and leaves exactly the later lines |
| PositionReport.ValueOf | enderscope.py:200 | `split(':')[1]` has no value (IndexError) exactly when the token has no colon. Otherwise it is the text after the first colon, up to the next colon or the end of the token |
| PositionReport.Collect | enderscope.py:200 | the dictionary comprehension fails on a token without a colon. Otherwise it has exactly the tokens' keys, and each key holds the value of the last token carrying it |
| PositionReport.ParseReport | enderscope.py:198-204 | for any line: it fails with IndexError exactly when a token before ` Count` has no colon. Otherwise, with `as_dict`, the mapping holds exactly the tokens' keys, each with the value of the last token carrying it. Without it, the tuple holds the last X, Y and Z values, or the parse fails with KeyError naming the first of X, Y, Z that is missing |
| PositionReport.LastKeyExists | enderscope.py:200 | a key that some token carries has a last token carrying it |
| PositionReport.FieldsAreLast | enderscope.py:200 | every entry of the collected mapping is the value of the last token with that key |
| PositionReport.ParseReplyLine | enderscope.py:198-204 | the controller's `X:.. Y:.. Z:.. <further fields> Count ..` line parses back to the position it reports: as a tuple, or as a mapping holding X, Y and Z with those values, which is exactly the three-key mapping when there are no further fields |
| PositionReport.ExtruderField | enderscope.py:198-204 | Marlin's extruder token `E:0.0` is a further field the parser accepts, keyed apart from the axes |
| PositionReport.ParseExampleReport | enderscope.py:198-204 | the concrete Marlin report line `X:12.5 Y:3.0 Z:0.0 E:0.0 Count X:0 Y:0 Z:0` parses to its X, Y and Z values |
| Text.PrefixBefore | enderscope.py:198 | `split(sep)[0]` is the text before the first occurrence of the separator, or the whole string when there is none |
| Text.SplitJoin | enderscope.py:199 | whitespace splitting recovers the words a space-joined line was made of |
| Lights.WriteCode | enderscope.py:297-302 | writes the framed code and returns exactly the next response line, `ok` or not; with no line left it hangs |
| Lights.ThenAnswered | enderscope.py:334-345 | one answered sequence followed by another is the answered exchange of all their lines, including when the first one hangs |
| Lights.Shutter | enderscope.py:304-307 | sends `S1` to open and `S0` to close, one response read |
| Lights.Mode | enderscope.py:309-312 | sends `M<value>`, one response read |
| Lights.Parameter | enderscope.py:314-317 | sends `P<value>`, one response read |
| Lights.Red | enderscope.py:319-322 | sends `R<value>`, one response read |
| Lights.Green | enderscope.py:324-327 | sends `G<value>`, one response read |
| Lights.Blue | enderscope.py:329-332 | sends `B<value>`, one response read |
| Lights.Color | enderscope.py:334-338 | sends `R`, `G`, `B` in that order, each answered by one line. If responses run out, the later channels are never sent |
| Lights.Commands | enderscope.py:334-345 | a command sequence writes the frames in order, stopping for good at the first command left unanswered |
| Lights.Reset | enderscope.py:340-345 | sends `S0`, `M0`, `MA65535`, `R20`, `G20`, `B20` in that order, one response each |
| PositionSlots.NewPanel | enderscope.py:220-221 | a new panel is not recording and its six slots are empty |
| PositionSlots.SetRecording | enderscope.py:257-263 | the checkbox sets the recording flag and leaves every slot alone |
| PositionSlots.Record | enderscope.py:273-275 | recording stores the query's result (`None` included) in the slot and does exactly the query's I/O |
| PositionSlots.Recall | enderscope.py:276-277 | an empty slot sends nothing; a filled one makes an absolute move to the stored position; the slots are unchanged |
| PositionSlots.PressSlot | enderscope.py:271-277 | pressing `P<n>` touches only slot n. While recording it does the position query and stores its result; otherwise it recalls the slot; recording state is kept |
| PositionSlots.RecordReport | enderscope.py:271-277 | recording while the controller reports a position stores exactly that position |
| PositionSlots.RecordThenRecall | enderscope.py:257-277 | recording a slot, switching recording off and pressing it again moves the stage back to the recorded position |
| ScanPatterns.Range | enderscope.py:383 | `range(start, stop, step)` holds `start + i*step` at index i, with Python's length for steps 1 and -1 |
| ScanPatterns.Raster | enderscope.py:376-377 | raster has rows×cols points (zero for a non-positive size) |
| ScanPatterns.RasterPoint | enderscope.py:376-377 | the k-th raster point is `(k mod cols, k div cols)` and lies in the grid |
| ScanPatterns.RasterCoversGrid | enderscope.py:376-377 | raster contains exactly the grid cells and repeats none |
| ScanPatterns.RasterVisitsEachCellOnce | enderscope.py:376-377 | every grid cell occurs exactly once in raster and nothing else occurs |
| ScanPatterns.SnakeXsByParity | enderscope.py:383 | the single `range` expression runs 0..cols-1 on even rows and cols-1..0 on odd rows |
| ScanPatterns.Snake | enderscope.py:379-384 | snake has rows×cols points |
| ScanPatterns.SnakePoint | enderscope.py:379-384 | the k-th snake point lies on row `k div cols`, at column `k mod cols` counted from the left on even rows and from the right on odd rows |
| ScanPatterns.SnakeCoversGrid | enderscope.py:379-384 | snake contains exactly the grid cells and repeats none |
| ScanPatterns.SnakeVisitsEachCellOnce | enderscope.py:379-384 | every grid cell occurs exactly once in snake and nothing else occurs |
| ScanPatterns.SnakePermutesRaster | enderscope.py:376-384 | snake is a permutation of raster |
| ScanPatterns.SnakeSteps | enderscope.py:379-384 | consecutive snake points are one column apart on the same row, or one row apart in the same column |
| SquareSpiral.Leg | enderscope.py:401-403 | the inner loop appends exactly i points, the j-th being j+1 steps along the current direction |
| SquareSpiral.PrefixSlice | enderscope.py:406 | `sp[:n]` is a prefix of the list, of length n whenever 0 ≤ n ≤ its length |
| SquareSpiral.SpiralIsReference | enderscope.py:394-406 | the loop's output equals the reference spiral: max(n, 0) points, the k-th lying on leg m = LegOf(k), which starts at that leg's corner and heads in direction m mod 4 |
| SquareSpiral.CornerClosedForm | enderscope.py:394-406 | leg 4q+r starts at the corner of the square ring of radius q or q+1 that the closed form names |
| SquareSpiral.DefaultPaths | enderscope.py:376-394 | called with their default arguments, raster and snake give 12 points (4 columns, 3 rows) and the spiral gives 50 |
| SquareSpiral.SpiralProperties | enderscope.py:394-406 | the spiral has max(n, 0) points and starts at the origin. Each point is one unit step from the previous one, and the Chebyshev distance from the origin never decreases |

## Left out

- `serial_ports` (both copies) and `open_port`: these enumerate operating-system devices, so they are I/O outside the protocol.
- The `SerialDevice` constructors (`__init__`): these open the port and busy-wait on `isOpen()`. The `Link` value starts from an already open port.
- The `Stage` constructor's optional homing: that is a single `Home` call, and it is not modelled separately.
- `debug` printing in every `write_code` and move, the "Error reading stage position" message, and `EnderLights.write_code` printing a non-`ok` response: these are console output with no effect on the protocol.
- UTF-8 encoding and decoding of lines: every line is kept as text.
- `Transport.Flush`: drops whole buffered lines; the program reads single bytes until `in_waiting` is zero. This matches whenever the buffer holds whole lines.
- `float()` conversion in `get_position`, and its ValueError on a non-numeric value: coordinates stay as the text the controller sent. Python's formatting of numbers into commands is likewise left out; values are those rendered tokens.
- `Text.Lower` and `Text.Upper`: map only ASCII letters; the program's `str.lower`/`str.upper` use full Unicode case mapping. A direction name containing a non-ASCII letter is unknown either way, but the two case mappings can differ in what they produce.
- `Stage.MoveTowards`: for a name with a non-ASCII capital the KeyError carries a different key: `"NÖRTH"` fails with `KeyError('nörth')` in the program and with `KeyError("nÖrth")` in the model.
- `Stage.MoveAxis`: upper-cases only ASCII letters, so `move_axis('ß', d)` sends `G0 SS<d>` in the program and `G0 ß<d>` in the model.
- `Stage.MoveTowards`: looks the direction up before the `G91` exchange, not after. The outcome, the lines written and the lines read are the same as the program's, which is what the contract states.
- `Lights.Reset`: is modelled as the six commands `reset` issues through `shutter`, `mode`, `write_code` and `color`. `Lights.Color` is proved to be its three commands in order.
- The control panel's widgets, the checkbox label, the Home/direction/Save/Open buttons and the block after every click (`finish_moves`, then printing `get_position(as_dict=True)`): these are UI glue around the modelled calls. Pressing Save or Open reaches `move_towards` with an unknown direction. `Stage.MoveTowards` covers that path as a KeyError.
- `PositionSlots.Record`: stores `get_position()` as the program does. A query that hangs or raises leaves the panel unchanged.
- `set_steps` and the step sizes `xys`/`zs`: the modelled calls never use them.
- `ScanPatterns.plot_path`: plotting only.
- `ScanPatterns.random`: it draws from numpy's seeded generator, which is foreign code outside this model.
- numpy arrays are modelled as sequences of integer pairs. `np.append` and array slicing become sequence concatenation and a prefix.
- Serial timeouts: the program configures none, so every read without an answer is the `NeverAnswered` fault rather than a timeout.
