# AirPods seamless handoff — a Dafny model

The daemon keeps a Linux host and the user's other Apple devices from
fighting over one pair of AirPods. It holds an L2CAP connection to the
earbuds' control service (AACP), asks for TiPi "audio source"
notifications, and uses them to decide when the host should claim the
earbuds back (`OWNS_CONNECTION` CLAIM) and reclaim the A2DP stream through
PulseAudio / PipeWire (`pactl`). When another device takes the audio, it
pauses the local MPRIS players and remembers to reclaim once that device
releases the audio again.

The model has six modules:

- `Packets` (packets.dfy): the byte-exact packets. It has the
  `createCommand` builder, CLAIM/RELEASE, HANDSHAKE, REQUEST_NOTIFICATIONS
  and FEATURES_ACK, and the total `AudioSource::parse`.
- `Handoff` (handoff.dfy): the `AirPodsHandoff` controller as a class.
  - Its fields are `localMac`, `currentSource`, `shouldReclaimOnNone` and
    whether the socket is connected.
  - It keeps an append-only log of what it does to the outside world:
    packets written, the creation of the media controller and the calls
    into it, new connections and reconnect timers.
  - The local adapter address is decoded the way `QByteArray::fromHex` does
    it and then reversed in place.
- `Media` (mediacontroller.dfy): `MediaController` as a class.
  - Its card and sink names are looked up once at construction.
  - Its methods return the `pactl` commands they run, in order.
  - The D-Bus services and their answers are parameters.
- `PulseAudio` (pulseaudio.dfy): the `pactl` output parsers.
  - `QString::split` on a character and on `\s+`, and `QString::trimmed`.
  - The first-match line searches.
  - The stateful sink-input scan of `hasActiveAudio`.
- `Sequences` and `Wrappers`: reversal (with an in-place array reversal) and
  `Option`.

Effects the controller cannot compute are inputs:

- the answers of `isMediaPlaying()` and `hasActiveAudio()` are parameters of
  `OnDataReceived`;
- the outputs of `pactl list ...` and the exit status of each
  `pactl suspend-sink` are parameters of the media methods.

Facts about the code that the model keeps:

- HANDSHAKE is 16 bytes (packets.h:57).
- The code has no connection-state field, attempt counter, backoff,
  watchdog or pending-timer check. Each `disconnected` event schedules
  exactly one reconnect after a fixed 2000 ms (main.cpp:165).
- `onError` only reports the error (main.cpp:171-173). A connection attempt
  that fails with an error and no `disconnected` event schedules no retry.
- In `onPlaybackStarted`, a valid current source of kind NONE leads to a
  CLAIM write without `reclaimAudioStream` (main.cpp:129-133). The
  controller never stores a NONE source, so this branch is dead in the
  intended state space. It is reachable only through the uninitialised
  start state (see Findings).

## Model

| member | source | states |
|---|---|---|
| `Packets.CreateCommand` | packets.h:11-19 | an OWNS_CONNECTION command is 11 bytes: the 6-byte header, the identifier at byte 6, the data byte at byte 7, then three zero bytes |
| `Packets.CreateCommandInjective` | packets.h:11-19 | identifier and data byte can be read back from a command: equal commands have equal arguments |
| `Packets.ClaimReleaseBytes` | packets.h:21-22 | CLAIM is `04 00 04 00 09 00 06 01 00 00 00`; RELEASE differs from it only in byte 7 (0x00), so the two are distinct |
| `Packets.Parse` | packets.h:41-52 | a notification is valid exactly when it has at least 13 bytes and starts with `04 00 04 00 0E`; an invalid one is the empty, NONE, not-valid `Info`; a valid one carries a 6-byte address |
| `Packets.ParseAudioSourcePacket` | packets.h:44-48 | round trip: parsing header + reserved byte + address + kind + any trailing bytes gives back exactly that address and kind |
| `Packets.ParsedIsAudioSourcePacket` | packets.h:44-48 | converse: every buffer the parser accepts is such a packet, rebuilt from its reserved byte, parsed address, parsed kind and tail |
| `Packets.ParseIgnoresReservedAndTail` | packets.h:44-48 | byte 5 and everything after byte 12 never change the parse result |
| `Packets.ConnectionPacketShapes` | packets.h:57-59 | HANDSHAKE has 16 bytes, REQUEST_NOTIFICATIONS 11 bytes ending in five 0xFF, FEATURES_ACK 6 bytes |
| `Packets.FeaturesAckIsNotAudioSource` | packets.h:59 | a read starting with FEATURES_ACK never starts with the AUDIO_SOURCE header and never parses as a valid notification |
| `Sequences.ReversedInvolution` | main.cpp:27 | reversing a byte sequence twice restores it |
| `Sequences.ReverseInPlace` | main.cpp:27 | `std::reverse` on the buffer leaves it holding the reverse of its old contents |
| `Handoff.StripColons` | main.cpp:26 | `replace(":", "")` leaves no colon and never lengthens the address |
| `Handoff.StripColonsChar` | main.cpp:26 | per character, a colon is dropped and any other character is kept |
| `Handoff.StripColonsConcat` | main.cpp:26 | stripping a concatenation strips each part, so the kept characters stay in order; with `StripColonsChar` this fixes the result for every string |
| `Handoff.HexNibbles` | main.cpp:26 | `fromHex` reads at most one nibble per character, one per character when all are hex digits, and none when no character is |
| `Handoff.HexNibblesChar` | main.cpp:26 | per character, a hex digit (either case) gives its value and any other character is skipped |
| `Handoff.HexNibblesConcat` | main.cpp:26 | the nibbles of a concatenation are those of its parts, in order; with `HexNibblesChar` this fixes the nibbles of every string |
| `Handoff.PackNibbles` | main.cpp:26 | nibbles are paired into `(count + 1) / 2` bytes |
| `Handoff.PackNibblesLeadingNibble` | main.cpp:26 | with an odd number of nibbles the first byte is the first nibble alone |
| `Handoff.PackNibblesAt` | main.cpp:26 | every byte past a lone leading nibble is the nibble at `2i - (count mod 2)` times 16 plus the next one |
| `Handoff.PackNibblesPairsFromRight` | main.cpp:26 | pairing runs from the right: an odd leading nibble is a byte of its own, and every other byte is a high nibble times 16 plus the low nibble after it |
| `Handoff.FromHex` | main.cpp:26 | `QByteArray::fromHex` gives at most one byte per two characters, rounding up, and exactly half as many bytes for an even-length string of hex digits |
| `Handoff.FromHexSkipsNonHex` | main.cpp:26 | a non-hex character anywhere in the input leaves the decoded bytes unchanged |
| `Handoff.LocalMacFor` | main.cpp:26-27 | `localMac` reversed again is the hex decoding of the colon-free address, and it has at most one byte per two characters |
| `Handoff.UnderscoreAddress` | main.cpp:32 | `replace(":", "_")` keeps the length, turns every `:` into `_` and keeps every other character |
| `Handoff.ColonHexRoundTrip` | main.cpp:26 | removing the colons from an address printed as colon-separated hex octets and decoding the hex gives back the octets |
| `Handoff.LocalMacOfAdapterAddress` | main.cpp:24-27 | for a six-octet adapter address, `localMac` is 6 bytes, the octets in reverse order, and reversing it again restores the printed order |
| `Handoff.LocalMacMatchesOwnNotification` | main.cpp:74-80 | a notification carrying the adapter's address in wire order parses to a `deviceMac` equal to `localMac`, which is what the ownership comparisons test |
| `Handoff.PlaybackResponse` | main.cpp:119-155 | for any source the controller can hold: socket closed gives reclaim only; we own the audio gives nothing; any other case gives CLAIM then reclaim |
| `Handoff.InitialSourceAsDeclaredReachesDeadBranch` | main.cpp:202 | the start state as declared (indeterminate `isValid`/`type` reading valid, NONE) breaks the source invariant, and makes the first playback write CLAIM without reclaiming; the intended empty start claims and reclaims |
| `Handoff.AirPodsHandoff.constructor` | main.cpp:20-38 | `localMac` is the decoded adapter address reversed; the controller starts with no source, the reclaim flag clear and the socket not open; its effects are creating the media controller for the earbuds' address with `_` for `:`, then one connection attempt to the earbuds |
| `Handoff.AirPodsHandoff.ConnectToAirPods` | main.cpp:176-196 | the old socket is dropped, the new one is not open yet, and one connection attempt to the earbuds' address is logged |
| `Handoff.AirPodsHandoff.OnConnected` | main.cpp:41-48 | the socket is open and HANDSHAKE is the only packet written; notifications are not requested yet |
| `Handoff.AirPodsHandoff.OnDataReceived` | main.cpp:50-117 | FEATURES_ACK gives only REQUEST_NOTIFICATIONS; unparsable reads change nothing; NONE claims and reclaims once if flagged and the socket is open, then clears the flag; a non-NONE source is remembered; our own device causes no effect; another device that took our audio gets a pause and sets the flag; otherwise the media layer is asked (`hasActiveAudio` only if nothing plays) and any local audio gets a pause and sets the flag; the source invariant and "RELEASE is never written" are preserved |
| `Handoff.AirPodsHandoff.OnPlaybackStarted` | main.cpp:119-155 | appends exactly `PlaybackResponse` for the current state, changes no arbitration state, and preserves the invariant |
| `Handoff.AirPodsHandoff.OnDisconnected` | main.cpp:157-169 | the source is reset to the empty, not-valid `Info`, the flag is cleared, the socket is closed and one reconnect after 2000 ms is scheduled |
| `Handoff.AirPodsHandoff.OnReconnectTimer` | main.cpp:165-168 | the timer callback starts a new connection attempt |
| `Handoff.AirPodsHandoff.OnError` | main.cpp:171-173 | an error changes no state and has no effect besides the report |
| `PulseAudio.Arguments` | media/pulseaudio.h:10-91 | the `pactl` argument vectors: two or three arguments; "list" first exactly for the three listings; `suspend-sink` followed by the sink; `set-card-profile` followed by the card and the profile |
| `PulseAudio.SuspendSinkFlag` | media/pulseaudio.h:57-62 | `suspend-sink <sink>` is followed by "1" to suspend and "0" to resume; nothing else differs |
| `PulseAudio.Split` | media/pulseaudio.h:23 | `split` on a character keeps empty parts: at least one part, no part contains the separator, and joining the parts with it gives back the input |
| `PulseAudio.SplitHasTwoPartsIff` | media/pulseaudio.h:27-28 | a line has a second field exactly when it contains the separator |
| `PulseAudio.SplitOnWhitespace` | media/pulseaudio.h:48 | splitting on `\s+` gives at least one field, no field holds white space, and leading white space gives an empty first field |
| `PulseAudio.SplitOnWhitespaceKeepsText` | media/pulseaudio.h:48 | the fields concatenated are the line with its white space removed: nothing but white space is dropped |
| `PulseAudio.SplitOnWhitespaceSpaceRun` | media/pulseaudio.h:48 | a run of white space at the start, before a non-space or the end, gives exactly one empty field followed by the fields of the rest |
| `PulseAudio.SplitOnWhitespaceFirstField` | media/pulseaudio.h:48-50 | where the fields end: a word, a run of white space and a remainder not starting with white space split into the word followed by the fields of the remainder, so the second field of a listing line is the word after the first white-space run |
| `PulseAudio.SplitOnWhitespaceHasTwoPartsIff` | media/pulseaudio.h:48-49 | a line has a second white-space field exactly when it contains white space |
| `PulseAudio.Trimmed` | media/pulseaudio.h:101 | the result neither starts nor ends with white space |
| `PulseAudio.TrimmedIsMiddle` | media/pulseaudio.h:101 | the result is a contiguous run of the input; only white space comes before and after it |
| `PulseAudio.TrimmedIdempotent` | media/pulseaudio.h:101 | trimming a trimmed line changes nothing |
| `PulseAudio.FirstMatch` | media/pulseaudio.h:25-33 | the loop-and-return search gives the field of the first accepted line, or the empty string when no line is accepted |
| `PulseAudio.CardForDevice` | media/pulseaudio.h:17-34 | the card is the second tab field of the first line that contains the address and has two fields; empty when no line qualifies |
| `PulseAudio.SinkForDevice` | media/pulseaudio.h:36-55 | the sink is the second white-space field of the first line that contains "bluez" and the address and has two fields; empty when none |
| `PulseAudio.SinkIndex` | media/pulseaudio.h:64-81 | the index is the first tab field of the first line that contains the sink name; empty when no line does |
| `PulseAudio.SinkSinceLastCorkedStep` | media/pulseaudio.h:103-127 | one line of the scan: a `Corked:` line clears the remembered index, a `Sink:` line with a second field replaces it, and any other line keeps it |
| `PulseAudio.ScanStep` | media/pulseaudio.h:103-127 | one line of the scan: a `Corked:` line is never a `Sink:` line, reports a playing input exactly when it contains "no" and the remembered index is the sink's, and clears the index; any other line reports nothing and updates the index as `SinkSinceLastCorked` does |
| `PulseAudio.ScanSinkInputs` | media/pulseaudio.h:97-130 | the scan is true exactly when some `Corked:` line contains "no" and the last `Sink:` index seen since the previous `Corked:` line equals the sink's index |
| `PulseAudio.CorkedLineResetsScan` | media/pulseaudio.h:124-126 | after any `Corked:` line the remembered sink index is empty |
| `PulseAudio.StaleSinkLineIgnored` | media/pulseaudio.h:104-126 | a `Sink:` line before the last `Corked:` line cannot match: with no `Sink:` line since, the remembered index stays empty |
| `PulseAudio.HasActiveAudio` | media/pulseaudio.h:83-131 | no index for the sink gives false after listing the sinks only; otherwise both listings run and the result is that of the scan |
| `Media.PausedAtMostPlayers` | media/mediacontroller.cpp:76-89 | the count of paused players is at most the number of Pause calls, which is at most the number of services, and every Pause call goes to an `org.mpris.MediaPlayer2.` service |
| `Media.EmitsPlaybackStartedOnStatusOnly` | media/mediacontroller.cpp:129-146 | for every map of changed properties, `playbackStarted` is emitted or not exactly as for the map cut down to its PlaybackStatus entry |
| `Media.PlaybackStartedIgnoresOtherProperties` | media/mediacontroller.cpp:136-145 | adding, changing or removing any property other than PlaybackStatus never changes whether `playbackStarted` is emitted |
| `Media.MediaController.constructor` | media/mediacontroller.cpp:3-10 | the card and sink names are those found in the card and sink listings for the device address |
| `Media.MediaController.CycleProfiles` | media/mediacontroller.cpp:51-69 | without a card nothing runs; otherwise the hands-free profile is set, then `a2dp_sink`, and stereo is the last profile set |
| `Media.MediaController.ReclaimAudioStream` | media/mediacontroller.cpp:21-49 | the exact command sequence for each outcome. Profiles are cycled exactly when a card is known and there is no sink or the suspend or the resume fails. A resume is only issued after a successful suspend |
| `Media.MediaController.PauseAllMedia` | media/mediacontroller.cpp:71-94 | Pause goes to exactly the `org.mpris.MediaPlayer2.` services with a valid Player interface, in bus order; the paused count is the number of valid replies and never exceeds the number of calls |
| `Media.MediaController.IsMediaPlaying` | media/mediacontroller.cpp:96-114 | true exactly when some player service with a valid interface reports PlaybackStatus "Playing" |
| `Media.MediaController.HasActiveAudio` | media/mediacontroller.cpp:116-127 | without a sink name it is false and runs nothing; otherwise it is `PulseAudio::hasActiveAudio` for the sink |

## Left out

- The Bluetooth socket itself (L2CAP, the service UUID, `readAll`) is reduced to the flag `socketOpen`, which is true exactly from `connected` (`OnConnected`) to `disconnected` (`OnDisconnected`) or the next connection attempt. Starting a connection is the `ConnectToService` effect, and `connected`/`disconnected`/`readyRead` are method calls.
- `socket->isOpen()` (main.cpp:87, main.cpp:121) may already hold while a connection is still pending, before `connected`. The source then takes the open-socket branches of `onPlaybackStarted` and `onDataReceived`, and also attempts the CLAIM write on the unconnected socket. The model treats a pending connection as not open, so in that window `PlaybackResponse(false, ...)` gives only the reclaim.
- Each socket read is one `OnDataReceived` call, as in the source: there is no reassembly of packets split across reads, because the code does none.
- `QTimer::singleShot` is the `ScheduleReconnect(2000)` effect plus an `OnReconnectTimer` method. Wall-clock time is not modelled.
- Running `pactl` (QProcess) and its `waitForFinished` are left out. The listings and suspend exit statuses are parameters, and the commands are results.
- `setProfile`'s exit status is left out because `cycleProfiles` ignores it.
- D-Bus is left out. `registeredServiceNames` and each service's validity, Pause reply and PlaybackStatus are the `Service` parameters. The `PropertiesChanged` subscription is left out. `QVariant::toString` is taken to be the string the property carries.
- `QThread::msleep(200)` delays, all logging and timestamps, `getTimestamp` and the `main` function's argument handling are left out, because none of them affects state or packets.
- `QBluetoothLocalDevice::address()` is the constructor's `adapterAddress` parameter.
- media/mediacontroller.h only declares the class, and its declarations are what the model's class has. The `playbackStarted` signal connection is the caller invoking `OnPlaybackStarted`.
- `Handoff.AirPodsHandoff.constructor`: creating the media controller is only logged, as `CreateMediaController` with the `_` form of the address. The `pactl list cards short` and `pactl list sinks short` lookups it runs are modelled by `Media.MediaController.constructor`. Its D-Bus `PropertiesChanged` subscription and the `playbackStarted` connection are not modelled.
- `AirPodsHandoff` holds a `MediaController` in the source. The model's controller logs the calls it makes to it instead (`PauseAllMedia`, `ReclaimAudioStream`, the two questions). The `Media` class models what those calls do, as a separate object.
- `PulseAudio.Trimmed`: its ensures states only that neither end is white space. The full characterisation (a contiguous middle run, with only white space removed) is in `TrimmedIsMiddle` and the lemmas it uses, because stating it on the function made the scan proofs too costly.
- `PulseAudio.IsQtSpace` covers ASCII white space, U+0085, U+00A0 and the Unicode space, line and paragraph separators. Unicode data beyond that list is not modelled.

## Findings

| source | as written | input that shows it | evidently intended | confidence | as-written member | corrected member |
|---|---|---|---|---|---|---|
| main.cpp:202 | `currentSource` has no default member initializer and the constructor (main.cpp:20-38) does not set it, so `isValid` and `type` hold indeterminate values until the first non-NONE notification or a disconnect; a NONE notification never assigns `currentSource` (main.cpp:112-114), which is likely the first notification when nothing plays | indeterminate bits reading `isValid = true`, `type = NONE`, then playback starts on an open socket before any non-NONE notification: `onPlaybackStarted` writes CLAIM and returns without `reclaimAudioStream` (main.cpp:129-133) | start from the value-initialised `Info()` that `onDisconnected` assigns (empty, NONE, not valid), so the first playback claims and reclaims | not executed; medium | `Handoff.InitialSourceAsDeclaredReachesDeadBranch` | `Handoff.AirPodsHandoff.constructor` |
