# Chat client timeline and timestamp formatting

This project models the logic of the chat client's single React component (`App`). It covers two parts.

- **The component state as an event-driven state machine.** The state has three parts: the message timeline, the relay-connection liveness flag and the text being composed. Relay events change it:
  - a `messages` snapshot replaces the timeline;
  - a live `message` appends one entry;
  - `connect` and `disconnect` set the flag.

  Local actions change it too. The text box's change handler sets the composition text. The send action checks that the trimmed text is non-empty. If so, it emits one outbound `message` event with the text as typed and clears the input.
- **The two timestamp formatters** used in the message list. `formatMessageTime` gives `H:MM`. `formatDate` gives `DD/MM/` followed by the unpadded year (`01/02/999` for the year 999, a minus sign for a negative year). Both are modelled over the local-time fields a `Date` reports. Both rely on JavaScript's `('0' + n).slice(-2)` idiom for two-digit padding.

The timeline is a plain list. The code replaces it and appends to it exactly as events arrive. It has no de-duplication by message id, no merging of a late snapshot with live messages, and no call signalling. The model follows the code.

The modules are:

- `Wrappers` (`wrappers.dfy`): `Option`.
- `Decimal` (`decimal.dfy`): how `String(n)` writes an integral number, a reader for that text, and round-trip lemmas in both directions.
- `JsString` (`js_string.dfy`): `String.prototype.trim` with ECMAScript's whitespace set, and one-argument `String.prototype.slice`.
- `TimeFormat` (`time_format.dfy`): the padding idiom and the two formatters. It includes the invalid-date case. There every getter returns NaN, so the formatters print `"NaN:aN"` and `"aN/aN/NaN"`. A partner reader takes each format back apart.
- `Chat` (`chat.dfy`): the state, the events, one function per handler, `Step`, and `Run` over an event sequence. It also has an independent replay definition of the timeline and the lemmas that connect them.

## Model

| member | source | states |
|---|---|---|
| `JsString.TrimStart` | src/App.tsx:42 | The result is a suffix of the input. Everything dropped is whitespace, and the result does not start with whitespace. |
| `JsString.TrimEnd` | src/App.tsx:42 | The result is a prefix of the input. Everything dropped is whitespace, and the result does not end with whitespace. |
| `JsString.Trim` | src/App.tsx:42 | `message.trim()` is no longer than the input and neither starts nor ends with whitespace. |
| `JsString.TrimMiddle` | src/App.tsx:42 | The trimmed string is a contiguous middle part of the input, at the returned offset. Everything before and after it is whitespace. |
| `JsString.TrimEmptyIffBlank` | src/App.tsx:42 | The guard `message.trim() !== ''` holds exactly when the input has at least one non-whitespace character (both directions). |
| `JsString.TrimIdempotent` | src/App.tsx:42 | Trimming a trimmed string changes nothing. |
| `JsString.Slice` | src/App.tsx:85 | `s.slice(start)` is a suffix of `s`. A negative start keeps at most `-start` characters. A non-negative start drops `start` characters, clamped to the length. |
| `Decimal.NatToString` | src/App.tsx:86 | The text a non-negative number is written as in a template literal. It is a non-empty digit string with no redundant leading zero that denotes the number. Its last digit is the units digit. It is one character long exactly when the number is below 10. |
| `Decimal.IntToString` | src/App.tsx:96 | The text any integer is written as (the year): a well-formed integer literal. |
| `Decimal.ParseIntToString` | src/App.tsx:96 | Reading back the text written for any integer gives that integer. |
| `Decimal.NatToStringOfValue` | src/App.tsx:86 | Every canonical digit string is exactly the text written for the number it denotes. So writing is onto canonical text. |
| `Decimal.IntToStringOfParse` | src/App.tsx:96 | Every well-formed integer literal is exactly the text written for the integer it denotes. |
| `TimeFormat.NumberToString` | src/App.tsx:84-86 | `String(x)` of a getter result: `"NaN"` for NaN. Otherwise an integer literal that reads back as the value. |
| `TimeFormat.PlusOne` | src/App.tsx:94 | `date.getMonth() + 1`: NaN stays NaN, and an integer month index becomes one more. |
| `TimeFormat.GetFullYear` | src/App.tsx:93 | `getFullYear()`: NaN exactly for an invalid date, otherwise the year field. |
| `TimeFormat.GetMonth` | src/App.tsx:94 | `getMonth()`: NaN exactly for an invalid date, otherwise the month index, in 0..11. |
| `TimeFormat.GetDate` | src/App.tsx:95 | `getDate()`: NaN exactly for an invalid date, otherwise the day of the month, in 1..31. |
| `TimeFormat.GetHours` | src/App.tsx:84 | `getHours()`: NaN exactly for an invalid date, otherwise the hour, in 0..23. |
| `TimeFormat.GetMinutes` | src/App.tsx:85 | `getMinutes()`: NaN exactly for an invalid date, otherwise the minute, in 0..59. |
| `TimeFormat.Pad2` | src/App.tsx:85 | `('0' + x).slice(-2)` is always two characters long, and `"aN"` when `x` is NaN. |
| `TimeFormat.Pad2OfNat` | src/App.tsx:94-95 | For any `n >= 0` the idiom yields two digits denoting `n % 100`. It is `"0"` followed by the digit for `n <= 9`, and exactly the decimal text of `n` for 10..99. |
| `TimeFormat.Pad2Below100` | src/App.tsx:85 | For the minutes, the day and the month number (all below 100), the idiom yields two digits denoting exactly that number. |
| `TimeFormat.FormatMessageTime` | src/App.tsx:82-88 | Valid date: the unpadded hour text, then `:`, then two minute digits. The result is 4 characters long exactly when the hour is below 10, and it reads back as the same hour and minute. Invalid date: `"NaN:aN"`. |
| `TimeFormat.FormatDate` | src/App.tsx:91-98 | Valid date: slashes at positions 2 and 5, then the year text from position 6. It reads back as the same day, month index + 1 (so 1..12 for the index range `getMonth` keeps to) and year. Invalid date: `"aN/aN/NaN"`. |
| `Chat.OnMessages` | src/App.tsx:19-21 | The snapshot becomes the timeline, whatever was there before. The flag and the input are unchanged. |
| `Chat.OnMessage` | src/App.tsx:23-25 | The timeline grows by exactly one entry. Earlier entries are unchanged and in order, and the new message is last. The flag and the input are unchanged. |
| `Chat.OnConnect` | src/App.tsx:27-29 | The flag becomes true. The timeline and the input are unchanged. |
| `Chat.OnDisconnect` | src/App.tsx:31-33 | The flag becomes false. The timeline and the input are unchanged. |
| `Chat.OnInputChange` | src/App.tsx:72 | The typed value becomes the input. The timeline and the flag are unchanged. |
| `Chat.SendMessage` | src/App.tsx:41-46 | Nothing is emitted exactly when the input is blank, and then the whole state is unchanged. Otherwise exactly one message is emitted, with the untrimmed input, and the input becomes empty. The timeline and the flag never change. |
| `Chat.Step` | src/App.tsx:18-46 | Each relay event gives the state its handler gives. A typing event sets the input to the typed value. A send press is `sendMessage`. Only a send press emits, at most once, and never blank text. Relay events never change the input. Local actions never change the timeline or the flag. |
| `Chat.Run` | src/App.tsx:18-46 | Over any event sequence there is at most one emission per send press, and no emitted text is blank. |
| `Chat.RunTimeline` | src/App.tsx:19-25 | After any event sequence, the timeline is the last snapshot followed by every message delivered after it. With no snapshot, it is the starting timeline followed by every delivered message. Sends and typing contribute nothing. |
| `Chat.ExpectedTimelineStep` | src/App.tsx:23-25 | A last event that is not a snapshot extends the replayed timeline by its payload if it is a `message` event, and by nothing otherwise. |
| `Chat.RunConnected` | src/App.tsx:27-33 | After any event sequence, the flag is set by the last `connect`/`disconnect` event. With neither, it keeps its starting value. |
| `Chat.RunInput` | src/App.tsx:41-46 | After any event sequence, the input is the last typed value (or the starting input when nothing was typed). It is cleared if it was not blank and send was pressed after it, and kept otherwise. |
| `Chat.ExpectedInputStep` | src/App.tsx:41-46 | A last event other than typing clears the predicted input if it is a send press and that input is not blank. Otherwise the prediction is unchanged. |
| `Chat.AfterSendsStep` | src/App.tsx:41-46 | After the last typing, one more event clears the remaining text if it is a send press and the text is not blank. Otherwise it leaves the text alone. |
| `Chat.SendInStep` | src/App.tsx:41-46 | Send is pressed in a non-empty event sequence exactly when it is pressed before the last event or at it. |
| `Chat.RunFromInitial` | src/App.tsx:7-9 | From the initial state (no messages, not connected, empty input): with no snapshot the timeline is exactly the delivered messages. The flag is up exactly when the last liveness event was `connect`. With no typing the input stays empty. |
| `Chat.RunConcat` | src/App.tsx:18-39 | Events are processed strictly in order. A run splits at any point into two consecutive runs, both in state and in emissions. |
| `Chat.SendThenEcho` | src/App.tsx:23-46 | Sending a non-blank input leaves the timeline unchanged and emits the input. The relay's echo of it then appends exactly that message, with the typed text. |
| `Chat.SendTwiceEmitsOnce` | src/App.tsx:41-46 | Two send presses in a row emit at most once, because the first clears the input. |

## Left out

- The socket.io client: creating the connection, registering and removing listeners, and the network I/O (src/App.tsx:2-4, 18-39). These are library calls. Only their effect on the state is modelled, as events. The cleanup removes only the `connect` and `disconnect` listeners. That is not modelled, since the model has no notion of mounting twice.
- React rendering and JSX (src/App.tsx:48-78), except the text box's change handler (line 72), which is modelled as an event.
- Parsing `new Date(timestamp)` and extracting local-time-zone fields (src/App.tsx:83-84, 92-95). These depend on the host and the locale. The formatters take the fields as input. `InRange` states the ranges the `Date` getters keep to. A timestamp that fails to parse is the `InvalidDate` case.
- `TimeFormat.NumberToString`: does not model JavaScript's exponent notation for magnitudes of 10^21 and above, because no `Date` field comes near it. Integral values are written in plain decimal.
- `TimeFormat.Pad2OfNat`: says nothing about negative inputs (for example `-5` pads to `"-5"`), because no `Date` getter used with the idiom returns a negative number. `Pad2` itself is total.
- Character width: JavaScript strings are UTF-16 code units, while Dafny characters are Unicode scalar values. Every character `trim` strips is a single code unit, and `slice` here is only applied to ASCII text, so the two agree on everything modelled.
- src/jitsiMeetComponent.tsx and src/jitsi.tsx: script injection and a third-party video-conference embed, with no logic of their own.
- Message de-duplication, snapshot merging, peer-to-peer call signalling, and busy, glare and timeout rules. No code implementing them exists in the component, so the model does not invent them.
