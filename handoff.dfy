/** The ownership-arbitration controller (`AirPodsHandoff` in main.cpp).

    The controller reacts to four transport events (connected, data,
    disconnected, error), to the reconnect timer and to the media layer's
    "playback started" signal. What it does to the outside world (packets
    written to the socket, calls into the media controller, timers, new
    sockets) is recorded in an append-only effect log, in the order the
    source performs it. */
module Handoff {
  import opened Packets
  import opened Sequences

  // ---------------------------------------------------------------------
  // The local adapter address (main.cpp:24-27)

  type nibble = n: int | 0 <= n < 16

  predicate IsHexDigit(c: char)
  {
    ('0' <= c <= '9') || ('a' <= c <= 'f') || ('A' <= c <= 'F')
  }

  function HexDigitValue(c: char): nibble
    requires IsHexDigit(c)
  {
    if '0' <= c <= '9' then c as int - '0' as int
    else if 'a' <= c <= 'f' then c as int - 'a' as int + 10
    else c as int - 'A' as int + 10
  }

  /** The upper-case digit an adapter address is printed with. */
  function UpperHexDigit(v: nibble): (c: char)
    ensures IsHexDigit(c) && HexDigitValue(c) == v
  {
    if v < 10 then ('0' as int + v) as char else ('A' as int + v - 10) as char
  }

  /** `QString::replace(":", "")`. */
  function StripColons(s: string): (r: string)
    ensures ':' !in r
    ensures |r| <= |s|
  {
    if s == [] then []
    else if s[|s| - 1] == ':' then StripColons(s[..|s| - 1])
    else StripColons(s[..|s| - 1]) + [s[|s| - 1]]
  }

  /** The values of the hex digits of `s`, in order; `QByteArray::fromHex`
      skips every other character. */
  function HexNibbles(s: string): (n: seq<nibble>)
    ensures |n| <= |s|
    ensures (forall k :: 0 <= k < |s| ==> IsHexDigit(s[k])) ==> |n| == |s|
    ensures (forall k :: 0 <= k < |s| ==> !IsHexDigit(s[k])) ==> n == []
  {
    if s == [] then []
    else if IsHexDigit(s[|s| - 1]) then HexNibbles(s[..|s| - 1]) + [HexDigitValue(s[|s| - 1])]
    else HexNibbles(s[..|s| - 1])
  }

  /** `replace(":", "")` works character by character: a colon is dropped
      and any other character kept. */
  lemma StripColonsChar(c: char)
    ensures StripColons([c]) == if c == ':' then [] else [c]
  {
    assert [c][..0] == [];
  }

  /** ... and in order: stripping a concatenation strips each part. */
  lemma {:induction false} StripColonsConcat(a: string, b: string)
    ensures StripColons(a + b) == StripColons(a) + StripColons(b)
    decreases |b|
  {
    if b == [] {
      assert a + b == a;
    } else {
      var init := b[..|b| - 1];
      assert (a + b)[..|a + b| - 1] == a + init;
      assert (a + b)[|a + b| - 1] == b[|b| - 1];
      StripColonsConcat(a, init);
    }
  }

  /** `fromHex` reads a hex digit as its value and skips anything else. */
  lemma HexNibblesChar(c: char)
    ensures HexNibbles([c]) == if IsHexDigit(c) then [HexDigitValue(c)] else []
  {
    assert [c][..0] == [];
  }

  /** ... in order: the nibbles of a concatenation are those of its parts. */
  lemma {:induction false} HexNibblesConcat(a: string, b: string)
    ensures HexNibbles(a + b) == HexNibbles(a) + HexNibbles(b)
    decreases |b|
  {
    if b == [] {
      assert a + b == a;
    } else {
      var init := b[..|b| - 1];
      assert (a + b)[..|a + b| - 1] == a + init;
      assert (a + b)[|a + b| - 1] == b[|b| - 1];
      HexNibblesConcat(a, init);
    }
  }

  /** Pairs nibbles into bytes from the right, as `QByteArray::fromHex`
      does; an odd leading nibble becomes a byte of its own. */
  function PackNibbles(n: seq<nibble>): (bytes: seq<byte>)
    ensures |bytes| == (|n| + 1) / 2
  {
    if |n| == 0 then []
    else if |n| == 1 then [n[0]]
    else PackNibbles(n[..|n| - 2]) + [(n[|n| - 2] as int) * 16 + (n[|n| - 1] as int)]
  }

  /** With an odd count the first nibble is a byte of its own. */
  lemma {:induction false} PackNibblesLeadingNibble(n: seq<nibble>)
    requires |n| % 2 == 1
    ensures PackNibbles(n)[0] == n[0]
  {
    if |n| > 1 {
      var init := n[..|n| - 2];
      assert PackNibbles(n) == PackNibbles(init) + [(n[|n| - 2] as int) * 16 + (n[|n| - 1] as int)];
      PackNibblesLeadingNibble(init);
      assert init[0] == n[0];
    }
  }

  /** Byte `i`, past a lone leading nibble, is the high nibble at
      `2 * i - |n| % 2` times 16 plus the low nibble after it. */
  lemma {:induction false} PackNibblesAt(n: seq<nibble>, i: int)
    requires |n| % 2 <= i < (|n| + 1) / 2
    ensures PackNibbles(n)[i] == (n[2 * i - |n| % 2] as int) * 16 + (n[2 * i - |n| % 2 + 1] as int)
  {
    var init := n[..|n| - 2];
    assert PackNibbles(n) == PackNibbles(init) + [(n[|n| - 2] as int) * 16 + (n[|n| - 1] as int)];
    if i < (|n| + 1) / 2 - 1 {
      PackNibblesAt(init, i);
      assert init[2 * i - |n| % 2] == n[2 * i - |n| % 2];
      assert init[2 * i - |n| % 2 + 1] == n[2 * i - |n| % 2 + 1];
    }
  }

  /** Pairing runs from the right: an odd leading nibble is a byte of its
      own, and every other byte is a high nibble times 16 plus the low
      nibble after it. */
  lemma PackNibblesPairsFromRight(n: seq<nibble>)
    ensures var bytes, o := PackNibbles(n), |n| % 2;
      && (o == 1 ==> bytes[0] == n[0])
      && forall i :: o <= i < |bytes| ==> bytes[i] == (n[2 * i - o] as int) * 16 + (n[2 * i - o + 1] as int)
  {
    if |n| % 2 == 1 {
      PackNibblesLeadingNibble(n);
    }
    forall i | |n| % 2 <= i < |PackNibbles(n)|
      ensures PackNibbles(n)[i] == (n[2 * i - |n| % 2] as int) * 16 + (n[2 * i - |n| % 2 + 1] as int)
    {
      PackNibblesAt(n, i);
    }
  }

  /** `QByteArray::fromHex`: at most one byte per two characters, rounding
      up; a string of hex digits only, of even length, gives exactly half
      as many bytes. */
  function FromHex(s: string): (bytes: seq<byte>)
    ensures |bytes| <= (|s| + 1) / 2
    ensures (forall k :: 0 <= k < |s| ==> IsHexDigit(s[k])) && |s| % 2 == 0 ==> |bytes| == |s| / 2
  {
    PackNibbles(HexNibbles(s))
  }

  /** A character that is not a hex digit, anywhere in the input, does not
      change what `fromHex` decodes. */
  lemma FromHexSkipsNonHex(a: string, c: char, b: string)
    requires !IsHexDigit(c)
    ensures FromHex(a + [c] + b) == FromHex(a + b)
  {
    HexNibblesConcat(a + [c], b);
    HexNibblesConcat(a, [c]);
    HexNibblesConcat(a, b);
    HexNibblesChar(c);
  }

  /** `localMac`: the adapter address with colons removed, decoded from
      hex, then reversed into the wire order notifications use. */
  function LocalMacFor(address: string): (mac: seq<byte>)
    ensures Reversed(mac) == FromHex(StripColons(address))
    ensures |mac| <= (|address| + 1) / 2
  {
    var decoded := FromHex(StripColons(address));
    ReversedInvolution(decoded);
    ReversedLength(decoded);
    Reversed(decoded)
  }

  /** `QString::replace(":", "_")`: the device address in the form the
      audio server uses in card and sink names. */
  function UnderscoreAddress(address: string): (r: string)
    ensures |r| == |address| && ':' !in r
    ensures forall k :: 0 <= k < |r| ==> r[k] == if address[k] == ':' then '_' else address[k]
  {
    if address == [] then []
    else [if address[0] == ':' then '_' else address[0]] + UnderscoreAddress(address[1..])
  }

  /** An address printed as colon-separated upper-case hex octets, most
      significant first (the adapter's `toString()` form). */
  function ColonHex(octets: seq<byte>): (s: string)
  {
    if |octets| == 0 then []
    else
      var last := octets[|octets| - 1];
      var separator := if |octets| == 1 then [] else [':'];
      ColonHex(octets[..|octets| - 1]) + separator + [UpperHexDigit(last / 16), UpperHexDigit(last % 16)]
  }

  lemma StripColonsAppendDigits(s: string, separator: string, h: char, l: char)
    requires separator == [] || separator == [':']
    requires IsHexDigit(h) && IsHexDigit(l)
    ensures StripColons(s + separator + [h, l]) == StripColons(s) + [h, l]
  {
    var t := s + separator + [h, l];
    assert t[..|t| - 1] == s + separator + [h];
    assert StripColons(t) == StripColons(s + separator + [h]) + [l];
    assert (s + separator + [h])[..|t| - 2] == s + separator;
    assert StripColons(s + separator + [h]) == StripColons(s + separator) + [h];
    if separator == [':'] {
      assert (s + separator)[..|s|] == s;
      assert StripColons(s + separator) == StripColons(s);
    } else {
      assert s + separator == s;
    }
  }

  lemma HexNibblesAppendDigits(s: string, h: char, l: char)
    requires IsHexDigit(h) && IsHexDigit(l)
    ensures HexNibbles(s + [h, l]) == HexNibbles(s) + [HexDigitValue(h), HexDigitValue(l)]
  {
    var t := s + [h, l];
    assert t[..|t| - 1] == s + [h];
    assert (s + [h])[..|s|] == s;
  }

  lemma PackNibblesAppendByte(n: seq<nibble>, b: byte)
    ensures PackNibbles(n + [b / 16, b % 16]) == PackNibbles(n) + [b]
  {
    var n' := n + [b / 16, b % 16];
    assert n'[..|n'| - 2] == n;
  }

  /** One more octet printed at the end decodes to one more byte. */
  lemma DecodeColonHexStep(octets: seq<byte>)
    requires |octets| > 0
    ensures FromHex(StripColons(ColonHex(octets)))
         == FromHex(StripColons(ColonHex(octets[..|octets| - 1]))) + [octets[|octets| - 1]]
  {
    var init, last := octets[..|octets| - 1], octets[|octets| - 1];
    var separator := if |octets| == 1 then [] else [':'];
    var h, l := UpperHexDigit(last / 16), UpperHexDigit(last % 16);
    assert ColonHex(octets) == ColonHex(init) + separator + [h, l];
    StripColonsAppendDigits(ColonHex(init), separator, h, l);
    HexNibblesAppendDigits(StripColons(ColonHex(init)), h, l);
    PackNibblesAppendByte(HexNibbles(StripColons(ColonHex(init))), last);
  }

  /** Decoding the printed form of any address gives back its octets. */
  lemma {:induction false} ColonHexRoundTrip(octets: seq<byte>)
    ensures FromHex(StripColons(ColonHex(octets))) == octets
  {
    if |octets| > 0 {
      ColonHexRoundTrip(octets[..|octets| - 1]);
      DecodeColonHexStep(octets);
      assert octets == octets[..|octets| - 1] + [octets[|octets| - 1]];
    }
  }

  /** For a well-formed six-octet adapter address, `localMac` is six bytes
      long, is the octets in reverse, and reversing it again restores the
      printed order. */
  lemma LocalMacOfAdapterAddress(octets: seq<byte>)
    requires |octets| == 6
    ensures LocalMacFor(ColonHex(octets)) == Reversed(octets)
    ensures |LocalMacFor(ColonHex(octets))| == 6
    ensures Reversed(LocalMacFor(ColonHex(octets))) == octets
  {
    ColonHexRoundTrip(octets);
    ReversedLength(octets);
    ReversedInvolution(octets);
  }

  /** The comparison the arbitration relies on: a notification naming the
      local adapter, whose address field is in wire order, carries exactly
      `localMac`. */
  lemma LocalMacMatchesOwnNotification(octets: seq<byte>, reserved: byte, kind: byte, tail: seq<byte>)
    requires |octets| == 6
    ensures |Reversed(octets)| == 6
    ensures Parse(AudioSourcePacket(reserved, Reversed(octets), kind, tail)).deviceMac == LocalMacFor(ColonHex(octets))
  {
    LocalMacOfAdapterAddress(octets);
    ParseAudioSourcePacket(reserved, Reversed(octets), kind, tail);
  }

  // ---------------------------------------------------------------------
  // Effects on the outside world

  datatype Effect =
    | Write(packet: seq<byte>)         // socket->write
    | CreateMediaController(deviceMac: string)  // new MediaController(deviceMac)
    | ConnectToService(address: string)  // a new socket, connecting to the control service of the earbuds
    | ScheduleReconnect(delayMs: nat)  // a single-shot timer that calls connectToAirPods
    | PauseAllMedia                    // media->pauseAllMedia()
    | ReclaimAudioStream               // media->reclaimAudioStream()
    | AskMediaPlaying                  // media->isMediaPlaying()
    | AskActiveAudio                   // media->hasActiveAudio()

  /** The fixed delay before a reconnect attempt (main.cpp:165). */
  const ReconnectDelayMs: nat := 2000

  /** What the controller keeps in `currentSource`: nothing yet, or a valid
      notification of a non-NONE owner. */
  predicate SourceInvariant(s: Info)
  {
    s == NoSource || (s.isValid && s.kind != NONE && |s.deviceMac| == 6)
  }

  /** `weHadAudio` (main.cpp:75-77). */
  predicate WeHadAudio(current: Info, localMac: seq<byte>)
  {
    current.isValid && current.kind != NONE && current.deviceMac == localMac
  }

  /** The effects of `onPlaybackStarted` (main.cpp:119-155). The second
      branch, a valid NONE source, is the source's; under SourceInvariant it
      cannot be taken, leaving three outcomes. */
  function PlaybackResponse(socketOpen: bool, current: Info, localMac: seq<byte>): (effects: seq<Effect>)
    ensures SourceInvariant(current) ==>
      effects == if !socketOpen then [ReclaimAudioStream]
                 else if current.isValid && current.deviceMac == localMac then []
                 else [Write(Claim), ReclaimAudioStream]
  {
    if !socketOpen then [ReclaimAudioStream]
    else if current.isValid && current.kind == NONE then [Write(Claim)]
    else if current.isValid && current.deviceMac == localMac then []
    else [Write(Claim), ReclaimAudioStream]
  }

  /** The value `currentSource` may hold right after construction as main.cpp
      is written: the member has no initializer and the constructor does
      not set it, so `type` and `isValid` are indeterminate. */
  function InitialSourceAsDeclared(indeterminateKind: byte, indeterminateValid: bool): Info
  {
    Info([], indeterminateKind, indeterminateValid)
  }

  /** With indeterminate bits reading as "valid, NONE", the state breaks the
      invariant and the first playback claims ownership without reclaiming
      the stream, unlike the intended empty start state. */
  lemma InitialSourceAsDeclaredReachesDeadBranch(localMac: seq<byte>)
    ensures !SourceInvariant(InitialSourceAsDeclared(NONE, true))
    ensures PlaybackResponse(true, InitialSourceAsDeclared(NONE, true), localMac) == [Write(Claim)]
    ensures PlaybackResponse(true, NoSource, localMac) == [Write(Claim), ReclaimAudioStream]
  {
  }

  // ---------------------------------------------------------------------
  // The controller

  class AirPodsHandoff {
    /** The earbuds' address as given on the command line. */
    const airpodsMac: string
    /** The local adapter address in wire order. */
    const localMac: seq<byte>
    /** The last valid non-NONE notification, or NoSource. */
    var currentSource: Info
    /** Set when another device took the audio while we were using it. */
    var shouldReclaimOnNone: bool
    /** Whether the current socket is connected: set by `connected`, cleared by
        `disconnected` and by every new connection attempt. */
    var socketOpen: bool
    /** Everything the controller has done to the outside world. */
    var log: seq<Effect>

    ghost predicate Valid()
      reads this
    {
      && SourceInvariant(currentSource)
      && (shouldReclaimOnNone ==> currentSource.isValid)
      && Write(Release) !in log
    }

    /** Computes `localMac` from the adapter's printed address, creates the
        media controller for the earbuds' address with `_` for `:`, starts
        with no arbitration state and opens the first connection. */
    constructor (airpodsMac: string, adapterAddress: string)
      ensures Valid()
      ensures this.airpodsMac == airpodsMac
      ensures localMac == LocalMacFor(adapterAddress)
      ensures currentSource == NoSource && !shouldReclaimOnNone
      ensures !socketOpen
      ensures log == [CreateMediaController(UnderscoreAddress(airpodsMac)), ConnectToService(airpodsMac)]
    {
      this.airpodsMac := airpodsMac;
      var decoded := FromHex(StripColons(adapterAddress));
      var buffer := new byte[|decoded|](i requires 0 <= i < |decoded| => decoded[i]);
      assert buffer[..] == decoded;
      ReverseInPlace(buffer);
      assert buffer[..] == LocalMacFor(adapterAddress);
      localMac := buffer[..];
      currentSource := NoSource;
      shouldReclaimOnNone := false;
      socketOpen := false;
      var media := CreateMediaController(UnderscoreAddress(airpodsMac));
      log := [media];
      new;
      ConnectToAirPods();
    }

    /** `connectToAirPods`: drops the old socket and starts connecting a
        new one, which is not open yet. */
    method ConnectToAirPods()
      modifies this`socketOpen, this`log
      ensures !socketOpen
      ensures log == old(log) + [ConnectToService(airpodsMac)]
    {
      socketOpen := false;
      log := log + [ConnectToService(airpodsMac)];
    }

    /** `onConnected`: the socket is open; the only packet is HANDSHAKE. */
    method OnConnected()
      requires Valid()
      modifies this`socketOpen, this`log
      ensures Valid()
      ensures socketOpen
      ensures log == old(log) + [Write(Handshake)]
    {
      socketOpen := true;
      log := log + [Write(Handshake)];
    }

    /** `onDataReceived`: one read, matched by prefix only. The answers the
        media layer would give to `isMediaPlaying()` and `hasActiveAudio()`
        are parameters; each question asked is logged. */
    method OnDataReceived(data: seq<byte>, mediaPlaying: bool, activeAudio: bool)
      requires Valid()
      modifies this`currentSource, this`shouldReclaimOnNone, this`log
      ensures Valid()
      // FEATURES_ACK: request notifications, nothing else
      ensures FeaturesAck <= data ==>
        && log == old(log) + [Write(RequestNotifications)]
        && currentSource == old(currentSource)
        && shouldReclaimOnNone == old(shouldReclaimOnNone)
      // anything unrecognised: no effect at all
      ensures !(FeaturesAck <= data) && !Parse(data).isValid ==>
        && log == old(log)
        && currentSource == old(currentSource)
        && shouldReclaimOnNone == old(shouldReclaimOnNone)
      // NONE: reclaim once if flagged (only on an open socket); flag cleared
      ensures !(FeaturesAck <= data) && Parse(data).isValid && Parse(data).kind == NONE ==>
        && log == old(log) + (if old(shouldReclaimOnNone) && socketOpen then [Write(Claim), ReclaimAudioStream] else [])
        && !shouldReclaimOnNone
        && currentSource == old(currentSource)
      // any other kind is remembered
      ensures !(FeaturesAck <= data) && Parse(data).isValid && Parse(data).kind != NONE ==>
        currentSource == Parse(data)
      // our own device: nothing to do
      ensures !(FeaturesAck <= data) && Parse(data).isValid && Parse(data).kind != NONE
              && Parse(data).deviceMac == localMac ==>
        log == old(log) && shouldReclaimOnNone == old(shouldReclaimOnNone)
      // another device took the audio from us: pause, remember to reclaim
      ensures !(FeaturesAck <= data) && Parse(data).isValid && Parse(data).kind != NONE
              && Parse(data).deviceMac != localMac && WeHadAudio(old(currentSource), localMac) ==>
        log == old(log) + [PauseAllMedia] && shouldReclaimOnNone
      // another device has audio while something plays locally: the same
      ensures !(FeaturesAck <= data) && Parse(data).isValid && Parse(data).kind != NONE
              && Parse(data).deviceMac != localMac && !WeHadAudio(old(currentSource), localMac) ==>
        && log == old(log) + [AskMediaPlaying] + (if mediaPlaying then [] else [AskActiveAudio])
                           + (if mediaPlaying || activeAudio then [PauseAllMedia] else [])
        && shouldReclaimOnNone == (old(shouldReclaimOnNone) || mediaPlaying || activeAudio)
    {
      if FeaturesAck <= data {
        log := log + [Write(RequestNotifications)];
        return;
      }
      if AudioSourceHeader <= data {
        var newSource := Parse(data);
        if newSource.isValid {
          var weHadAudio := WeHadAudio(currentSource, localMac);
          var otherDeviceHasAudio := newSource.kind != NONE && newSource.deviceMac != localMac;
          if newSource.kind == NONE {
            if shouldReclaimOnNone {
              if socketOpen {
                log := log + [Write(Claim), ReclaimAudioStream];
              }
              shouldReclaimOnNone := false;
            }
          } else if otherDeviceHasAudio {
            if weHadAudio {
              log := log + [PauseAllMedia];
              shouldReclaimOnNone := true;
            } else {
              log := log + [AskMediaPlaying];
              var localAudio := mediaPlaying;
              if !localAudio {
                log := log + [AskActiveAudio];
                localAudio := activeAudio;
              }
              if localAudio {
                log := log + [PauseAllMedia];
                shouldReclaimOnNone := true;
              }
            }
          }
          if newSource.kind != NONE {
            currentSource := newSource;
          }
        }
      }
    }

    /** `onPlaybackStarted`: changes no arbitration state. */
    method OnPlaybackStarted()
      requires Valid()
      modifies this`log
      ensures Valid()
      ensures log == old(log) + PlaybackResponse(socketOpen, currentSource, localMac)
    {
      if !socketOpen {
        log := log + [ReclaimAudioStream];
        return;
      }
      if currentSource.isValid {
        if currentSource.kind == NONE {
          log := log + [Write(Claim)];
          return;
        }
        if currentSource.deviceMac == localMac {
          return;
        }
      }
      log := log + [Write(Claim), ReclaimAudioStream];
    }

    /** `onDisconnected`: forgets the arbitration state and schedules one
        reconnect after a fixed delay, whether or not one is pending. */
    method OnDisconnected()
      requires Valid()
      modifies this`currentSource, this`shouldReclaimOnNone, this`socketOpen, this`log
      ensures Valid()
      ensures currentSource == NoSource && !currentSource.isValid
      ensures !shouldReclaimOnNone && !socketOpen
      ensures log == old(log) + [ScheduleReconnect(ReconnectDelayMs)]
    {
      currentSource := NoSource;
      shouldReclaimOnNone := false;
      socketOpen := false;
      log := log + [ScheduleReconnect(ReconnectDelayMs)];
    }

    /** The reconnect timer firing. */
    method OnReconnectTimer()
      requires Valid()
      modifies this`socketOpen, this`log
      ensures Valid()
      ensures !socketOpen
      ensures log == old(log) + [ConnectToService(airpodsMac)]
    {
      ConnectToAirPods();
    }

    /** `onError`: the source only reports the error code. */
    method OnError(error: int)
      requires Valid()
      ensures Valid()
      ensures unchanged(this)
    {
    }
  }

  /** A client of the controller: the local adapter owns the audio, another
      device takes it and releases it, the link drops and comes back. Every
      assertion follows from the contracts above alone. */
  method HandoffScenarios(airpods: string, adapter: seq<byte>, remote: seq<byte>, reserved: byte)
    requires |adapter| == 6 && |remote| == 6 && remote != Reversed(adapter)
  {
    LocalMacOfAdapterAddress(adapter);
    var local := Reversed(adapter);
    var h := new AirPodsHandoff(airpods, ColonHex(adapter));
    assert h.localMac == local;
    h.OnConnected();

    // The earbuds report that this host plays media.
    var ours := AudioSourcePacket(reserved, local, MEDIA, []);
    ParseAudioSourcePacket(reserved, local, MEDIA, []);
    assert ours[4] == 0x0E;
    h.OnDataReceived(ours, true, false);
    assert h.currentSource == Info(local, MEDIA, true);

    // Local playback starts while we own the audio: nothing to do.
    var mark := h.log;
    h.OnPlaybackStarted();
    assert h.log == mark;

    // Another device takes the audio: pause, remember to reclaim, send nothing.
    var theirs := AudioSourcePacket(reserved, remote, MEDIA, []);
    ParseAudioSourcePacket(reserved, remote, MEDIA, []);
    assert theirs[4] == 0x0E;
    h.OnDataReceived(theirs, false, false);
    assert h.log == mark + [PauseAllMedia] && h.shouldReclaimOnNone;

    // It releases the audio: claim and reclaim once, flag cleared.
    var released := AudioSourcePacket(reserved, remote, NONE, []);
    ParseAudioSourcePacket(reserved, remote, NONE, []);
    assert released[4] == 0x0E;
    h.OnDataReceived(released, false, false);
    assert h.log == mark + [PauseAllMedia, Write(Claim), ReclaimAudioStream];
    assert !h.shouldReclaimOnNone;

    // The link drops: state forgotten, one reconnect scheduled.
    h.OnDisconnected();
    assert !h.currentSource.isValid && !h.shouldReclaimOnNone;

    // Playback while disconnected only reclaims the stream.
    mark := h.log;
    h.OnPlaybackStarted();
    assert h.log == mark + [ReclaimAudioStream];

    // Reconnected, but no notification yet: claim proactively and reclaim.
    h.OnReconnectTimer();
    h.OnConnected();
    mark := h.log;
    h.OnPlaybackStarted();
    assert h.log == mark + [Write(Claim), ReclaimAudioStream];
  }
}
