/** `MediaController` (media/mediacontroller.cpp): the local media side of
    the handoff. D-Bus and `pactl` are outside the model: the registered
    services and what each answers, and whether each `pactl suspend-sink`
    succeeded, are parameters; the `pactl` commands a method runs are its
    result, in order. */
module Media {
  import opened Wrappers
  import opened PulseAudio

  const MprisPrefix := "org.mpris.MediaPlayer2."
  const PlayerInterface := "org.mpris.MediaPlayer2.Player"
  const PlaybackStatusKey := "PlaybackStatus"
  const Playing := "Playing"
  const HandsfreeProfile := "handsfree_head_unit"
  const A2dpProfile := "a2dp_sink"

  /** A service on the session bus as the controller sees it: its name,
      whether the MPRIS Player interface on it is valid, whether a Pause
      call gets a valid reply, and its PlaybackStatus property as a string
      (None when the property is invalid). */
  datatype Service = Service(name: string, interfaceValid: bool, pauseReplyValid: bool,
                             playbackStatus: Option<string>)

  /** The services both loops act on. */
  predicate IsPlayerService(s: Service)
  {
    MprisPrefix <= s.name && s.interfaceValid
  }

  /** Names of the player services, in bus order. */
  function PlayerNames(services: seq<Service>): seq<string>
  {
    if services == [] then []
    else (if IsPlayerService(services[0]) then [services[0].name] else []) + PlayerNames(services[1..])
  }

  /** How many player services answer Pause with a valid reply. */
  function CountPaused(services: seq<Service>): nat
  {
    if services == [] then 0
    else (if IsPlayerService(services[0]) && services[0].pauseReplyValid then 1 else 0) + CountPaused(services[1..])
  }

  lemma {:induction false} PausedAtMostPlayers(services: seq<Service>)
    ensures CountPaused(services) <= |PlayerNames(services)| <= |services|
    ensures forall n :: n in PlayerNames(services) ==> MprisPrefix <= n
  {
    if services != [] {
      PausedAtMostPlayers(services[1..]);
    }
  }

  lemma PlayerNamesAppend(services: seq<Service>, s: Service)
    ensures PlayerNames(services + [s]) == PlayerNames(services) + (if IsPlayerService(s) then [s.name] else [])
    ensures CountPaused(services + [s]) == CountPaused(services) + (if IsPlayerService(s) && s.pauseReplyValid then 1 else 0)
  {
    if services != [] {
      assert (services + [s])[1..] == services[1..] + [s];
      PlayerNamesAppend(services[1..], s);
    }
  }

  /** The profile switches of `cycleProfiles`: none without a card, else
      hands-free and then stereo, once each. */
  function ProfileCycle(cardName: string): seq<PactlCommand>
  {
    if cardName == [] then [] else [SetCardProfile(cardName, HandsfreeProfile), SetCardProfile(cardName, A2dpProfile)]
  }

  /** `onPropertiesChanged` emits `playbackStarted`: a Player interface
      change whose PlaybackStatus became "Playing". */
  predicate EmitsPlaybackStarted(interface: string, changed: map<string, string>)
  {
    interface == PlayerInterface && PlaybackStatusKey in changed && changed[PlaybackStatusKey] == Playing
  }

  /** Emission depends on the interface and the PlaybackStatus entry alone:
      the changed properties can be cut down to that one entry. */
  lemma EmitsPlaybackStartedOnStatusOnly(interface: string, changed: map<string, string>)
    ensures EmitsPlaybackStarted(interface, changed)
         == EmitsPlaybackStarted(interface, if PlaybackStatusKey in changed
                                            then map[PlaybackStatusKey := changed[PlaybackStatusKey]]
                                            else map[])
  {
  }

  /** Only the PlaybackStatus entry of the changed properties matters. */
  lemma PlaybackStartedIgnoresOtherProperties(interface: string, changed: map<string, string>, key: string, value: string)
    requires key != PlaybackStatusKey
    ensures EmitsPlaybackStarted(interface, changed[key := value]) == EmitsPlaybackStarted(interface, changed)
    ensures EmitsPlaybackStarted(interface, changed - {key}) == EmitsPlaybackStarted(interface, changed)
  {
  }

  class MediaController {
    const deviceMac: string
    const cardName: string
    const sinkName: string

    /** Looks the device's card and sink up in the two short listings;
        `deviceMac` is the address with `_` in place of `:`. */
    constructor (deviceMac: string, cardsShort: string, sinksShort: string)
      ensures this.deviceMac == deviceMac
      ensures cardName == CardForDevice(cardsShort, deviceMac)
      ensures sinkName == SinkForDevice(sinksShort, deviceMac)
    {
      this.deviceMac := deviceMac;
      cardName := CardForDevice(cardsShort, deviceMac);
      sinkName := SinkForDevice(sinksShort, deviceMac);
    }

    /** `cycleProfiles`: gives up without a card; otherwise switches to the
        hands-free profile and back to stereo. */
    method CycleProfiles() returns (issued: seq<PactlCommand>)
      ensures issued == ProfileCycle(cardName)
      ensures cardName != [] ==> |issued| == 2 && issued[|issued| - 1] == SetCardProfile(cardName, A2dpProfile)
    {
      issued := [];
      if cardName == [] {
        return;
      }
      issued := issued + [SetCardProfile(cardName, HandsfreeProfile)];
      issued := issued + [SetCardProfile(cardName, A2dpProfile)];
    }

    /** `reclaimAudioStream`: suspend then resume the sink; cycle the
        profiles when there is no sink or either step fails. */
    method ReclaimAudioStream(suspendSucceeds: bool, resumeSucceeds: bool) returns (issued: seq<PactlCommand>)
      ensures sinkName == [] ==> issued == ProfileCycle(cardName)
      ensures sinkName != [] && !suspendSucceeds ==>
        issued == [SuspendSink(sinkName, true)] + ProfileCycle(cardName)
      ensures sinkName != [] && suspendSucceeds ==>
        issued == [SuspendSink(sinkName, true), SuspendSink(sinkName, false)]
                  + (if resumeSucceeds then [] else ProfileCycle(cardName))
      // the fallback runs exactly when the suspend/resume path is unavailable or fails
      ensures (exists c :: c in issued && c.SetCardProfile?)
              <==> cardName != [] && (sinkName == [] || !suspendSucceeds || !resumeSucceeds)
      // a resume follows only a successful suspend
      ensures SuspendSink(sinkName, false) in issued ==> sinkName != [] && suspendSucceeds
    {
      if sinkName == [] {
        issued := CycleProfiles();
        return;
      }
      issued := [SuspendSink(sinkName, true)];
      if !suspendSucceeds {
        var fallback := CycleProfiles();
        issued := issued + fallback;
        return;
      }
      issued := issued + [SuspendSink(sinkName, false)];
      if !resumeSucceeds {
        var fallback := CycleProfiles();
        issued := issued + fallback;
      }
    }

    /** `pauseAllMedia`: calls Pause on every player service, counting the
        valid replies. */
    method PauseAllMedia(services: seq<Service>) returns (pauseCalls: seq<string>, pausedCount: nat)
      ensures pauseCalls == PlayerNames(services)
      ensures pausedCount == CountPaused(services)
      ensures pausedCount <= |pauseCalls| <= |services|
    {
      pauseCalls, pausedCount := [], 0;
      for i := 0 to |services|
        invariant pauseCalls == PlayerNames(services[..i])
        invariant pausedCount == CountPaused(services[..i])
      {
        assert services[..i + 1] == services[..i] + [services[i]];
        PlayerNamesAppend(services[..i], services[i]);
        var service := services[i];
        if !(MprisPrefix <= service.name) {
          continue;
        }
        if !service.interfaceValid {
          continue;
        }
        pauseCalls := pauseCalls + [service.name];
        if service.pauseReplyValid {
          pausedCount := pausedCount + 1;
        }
      }
      assert services[..|services|] == services;
      PausedAtMostPlayers(services);
    }

    /** `isMediaPlaying`: some player service reports "Playing". */
    method IsMediaPlaying(services: seq<Service>) returns (playing: bool)
      ensures playing <==> exists i :: 0 <= i < |services| && IsPlayerService(services[i])
                                       && services[i].playbackStatus == Some(Playing)
    {
      for i := 0 to |services|
        invariant forall j :: 0 <= j < i ==> !(IsPlayerService(services[j]) && services[j].playbackStatus == Some(Playing))
      {
        var service := services[i];
        if !(MprisPrefix <= service.name) {
          continue;
        }
        if !service.interfaceValid {
          continue;
        }
        if service.playbackStatus.Some? && service.playbackStatus.value == Playing {
          return true;
        }
      }
      return false;
    }

    /** `MediaController::hasActiveAudio`: without a sink nothing is asked;
        otherwise the sink inputs are scanned. */
    method HasActiveAudio(sinksShort: string, sinkInputs: string) returns (active: bool, ran: seq<PactlCommand>)
      ensures sinkName == [] ==> !active && ran == []
      ensures sinkName != [] && SinkIndex(sinksShort, sinkName) == [] ==> !active && ran == [ListSinksShort]
      ensures sinkName != [] && SinkIndex(sinksShort, sinkName) != [] ==>
        && ran == [ListSinksShort, ListSinkInputs]
        && (active <==> exists k :: 0 <= k < |Lines(sinkInputs)|
                                    && PlayingInputAt(Lines(sinkInputs), k, SinkIndex(sinksShort, sinkName)))
    {
      if sinkName == [] {
        return false, [];
      }
      active, ran := PulseAudio.HasActiveAudio(sinkName, sinksShort, sinkInputs);
    }
  }
}
