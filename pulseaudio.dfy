/** The `pactl` helpers of media/pulseaudio.h. Running `pactl` is outside
    the model: each command's standard output is a parameter, and the
    helpers are the text parsing done on it. */
module PulseAudio {
  import opened Sequences
  import opened Wrappers

  // ---------------------------------------------------------------------
  // The commands run

  datatype PactlCommand =
    | ListCardsShort
    | ListSinksShort
    | ListSinkInputs
    | SuspendSink(sink: string, suspend: bool)
    | SetCardProfile(card: string, profile: string)

  /** The argument vector passed to `pactl`. */
  function Arguments(command: PactlCommand): (args: seq<string>)
    ensures 2 <= |args| <= 3
    ensures args[0] == "list" <==> command.ListCardsShort? || command.ListSinksShort? || command.ListSinkInputs?
    ensures command.SuspendSink? ==> args[0] == "suspend-sink" && args[1] == command.sink
    ensures command.SetCardProfile? ==> args[0] == "set-card-profile" && args[1..] == [command.card, command.profile]
  {
    match command
    case ListCardsShort => ["list", "cards", "short"]
    case ListSinksShort => ["list", "sinks", "short"]
    case ListSinkInputs => ["list", "sink-inputs"]
    case SuspendSink(sink, suspend) => ["suspend-sink", sink, if suspend then "1" else "0"]
    case SetCardProfile(card, profile) => ["set-card-profile", card, profile]
  }

  /** `suspendSink` passes "1" to suspend and "0" to resume; nothing else
      differs between the two. */
  lemma SuspendSinkFlag(sink: string)
    ensures Arguments(SuspendSink(sink, true))[..2] == Arguments(SuspendSink(sink, false))[..2]
    ensures Arguments(SuspendSink(sink, true))[2] == "1"
    ensures Arguments(SuspendSink(sink, false))[2] == "0"
  {
  }

  // ---------------------------------------------------------------------
  // QString splitting and trimming

  /** The parts joined back with the separator between them. */
  function Join(parts: seq<string>, sep: char): string
    requires |parts| >= 1
  {
    if |parts| == 1 then parts[0] else parts[0] + [sep] + Join(parts[1..], sep)
  }

  /** `QString::split(sep)`, keeping empty parts. */
  function Split(s: string, sep: char): (parts: seq<string>)
    ensures |parts| >= 1
    ensures forall i :: 0 <= i < |parts| ==> sep !in parts[i]
    ensures Join(parts, sep) == s
    decreases |s|
  {
    if s == [] then [[]]
    else
      var rest := Split(s[1..], sep);
      if s[0] == sep then
        assert ([[]] + rest)[1..] == rest;
        [[]] + rest
      else
        var parts := [[s[0]] + rest[0]] + rest[1..];
        assert |rest| > 1 ==> parts[1..] == rest[1..];
        parts
  }

  /** A line splits into two or more fields exactly when the separator
      occurs in it. */
  lemma SplitHasTwoPartsIff(s: string, sep: char)
    ensures |Split(s, sep)| >= 2 <==> sep in s
  {
    var parts := Split(s, sep);
    if |parts| >= 2 {
      assert Join(parts, sep)[|parts[0]|] == sep;
    }
  }

  /** `\s` of the regular expression engine: ASCII white space. */
  predicate IsRegexSpace(c: char)
  {
    c == ' ' || 9 <= c as int <= 13
  }

  /** `QChar::isSpace`: ASCII white space, U+0085, U+00A0 and the Unicode
      separators. */
  predicate IsQtSpace(c: char)
  {
    || c == ' ' || 9 <= c as int <= 13 || c as int == 0x85 || c as int == 0xA0
    || c as int == 0x1680 || 0x2000 <= c as int <= 0x200A || c as int == 0x2028
    || c as int == 0x2029 || c as int == 0x202F || c as int == 0x205F || c as int == 0x3000
  }

  function Flatten(parts: seq<string>): string
  {
    if parts == [] then [] else parts[0] + Flatten(parts[1..])
  }

  function WithoutRegexSpaces(s: string): string
  {
    if s == [] then []
    else (if IsRegexSpace(s[0]) then [] else [s[0]]) + WithoutRegexSpaces(s[1..])
  }

  /** `QString::split(QRegularExpression("\\s+"))`, keeping empty parts:
      every maximal run of white space separates two fields, so a line
      with leading white space has an empty first field. */
  function SplitOnWhitespace(s: string): (parts: seq<string>)
    ensures |parts| >= 1
    ensures forall i, c :: 0 <= i < |parts| && c in parts[i] ==> !IsRegexSpace(c)
    ensures s != [] && IsRegexSpace(s[0]) ==> parts[0] == []
    decreases |s|
  {
    if s == [] then [[]]
    else
      var rest := SplitOnWhitespace(s[1..]);
      if IsRegexSpace(s[0]) then
        if |s| > 1 && IsRegexSpace(s[1]) then rest
        else
          assert ([[]] + rest)[1..] == rest;
          [[]] + rest
      else
        var parts := [[s[0]] + rest[0]] + rest[1..];
        assert parts[1..] == rest[1..];
        parts
  }

  /** Splitting on white space drops the white space and nothing else. */
  lemma {:induction false} SplitOnWhitespaceKeepsText(s: string)
    ensures Flatten(SplitOnWhitespace(s)) == WithoutRegexSpaces(s)
    decreases |s|
  {
    if s != [] {
      SplitOnWhitespaceKeepsText(s[1..]);
      var rest := SplitOnWhitespace(s[1..]);
      if !IsRegexSpace(s[0]) {
        assert Flatten(rest) == rest[0] + Flatten(rest[1..]);
        assert SplitOnWhitespace(s)[1..] == rest[1..];
      } else if !(|s| > 1 && IsRegexSpace(s[1])) {
        assert SplitOnWhitespace(s)[1..] == rest;
      }
    }
  }

  /** A line has a second white-space-separated field exactly when it
      contains white space. */
  lemma {:induction false} SplitOnWhitespaceHasTwoPartsIff(s: string)
    ensures |SplitOnWhitespace(s)| >= 2 <==> exists k :: 0 <= k < |s| && IsRegexSpace(s[k])
    decreases |s|
  {
    if s != [] {
      SplitOnWhitespaceHasTwoPartsIff(s[1..]);
      assert forall k :: 1 <= k < |s| ==> s[k] == s[1..][k - 1];
      assert (exists k :: 0 <= k < |s| && IsRegexSpace(s[k]))
         <==> IsRegexSpace(s[0]) || (exists k :: 0 <= k < |s[1..]| && IsRegexSpace(s[1..][k]));
    }
  }

  /** A run of white space followed by a non-space (or the end) is one
      separator: it contributes an empty first field and nothing more. */
  lemma {:induction false} SplitOnWhitespaceSpaceRun(sp: string, rest: string)
    requires sp != [] && forall k :: 0 <= k < |sp| ==> IsRegexSpace(sp[k])
    requires rest == [] || !IsRegexSpace(rest[0])
    ensures SplitOnWhitespace(sp + rest) == [[]] + SplitOnWhitespace(rest)
    decreases |sp|
  {
    var s := sp + rest;
    assert s[1..] == sp[1..] + rest;
    if |sp| > 1 {
      assert s[1] == sp[1];
      SplitOnWhitespaceSpaceRun(sp[1..], rest);
    } else {
      assert sp[1..] == [];
      assert s[1..] == rest;
    }
  }

  /** A word without white space in front of a line that starts with white
      space becomes the first field, the rest is split as before. */
  lemma {:induction false} SplitOnWhitespaceWord(w: string, t: string)
    requires forall k :: 0 <= k < |w| ==> !IsRegexSpace(w[k])
    requires t != [] && IsRegexSpace(t[0])
    ensures SplitOnWhitespace(w + t) == [w] + SplitOnWhitespace(t)[1..]
    decreases |w|
  {
    if w == [] {
      assert w + t == t;
      var parts := SplitOnWhitespace(t);
      assert parts == [parts[0]] + parts[1..];
    } else {
      var s := w + t;
      assert s[1..] == w[1..] + t;
      SplitOnWhitespaceWord(w[1..], t);
      assert [w[0]] + w[1..] == w;
    }
  }

  /** Where the fields end: a line made of a word, a run of white space and
      a remainder that does not start with white space splits into the word
      followed by the fields of the remainder. */
  lemma SplitOnWhitespaceFirstField(w: string, sp: string, rest: string)
    requires forall k :: 0 <= k < |w| ==> !IsRegexSpace(w[k])
    requires sp != [] && forall k :: 0 <= k < |sp| ==> IsRegexSpace(sp[k])
    requires rest == [] || !IsRegexSpace(rest[0])
    ensures SplitOnWhitespace(w + sp + rest) == [w] + SplitOnWhitespace(rest)
  {
    var t := sp + rest;
    var tail := SplitOnWhitespace(rest);
    SplitOnWhitespaceSpaceRun(sp, rest);
    assert SplitOnWhitespace(t)[1..] == ([[]] + tail)[1..] == tail;
    SplitOnWhitespaceWord(w, t);
    assert w + sp + rest == w + t;
  }

  function TrimStart(s: string): (t: string)
    ensures t == [] || !IsQtSpace(t[0])
  {
    if s != [] && IsQtSpace(s[0]) then TrimStart(s[1..]) else s
  }

  function TrimEnd(s: string): (t: string)
    ensures |t| <= |s|
    ensures t != [] ==> t[0] == s[0]
    ensures t == [] || !IsQtSpace(t[|t| - 1])
  {
    if s != [] && IsQtSpace(s[|s| - 1]) then TrimEnd(s[..|s| - 1]) else s
  }

  /** `QString::trimmed`. */
  function Trimmed(s: string): (t: string)
    ensures t == [] || (!IsQtSpace(t[0]) && !IsQtSpace(t[|t| - 1]))
  {
    TrimEnd(TrimStart(s))
  }

  lemma {:induction false} TrimStartDropsLeadingSpaces(s: string)
    ensures var t := TrimStart(s);
      |t| <= |s| && t == s[|s| - |t|..] && forall k :: 0 <= k < |s| - |t| ==> IsQtSpace(s[k])
  {
    if s != [] && IsQtSpace(s[0]) {
      TrimStartDropsLeadingSpaces(s[1..]);
    }
  }

  lemma {:induction false} TrimEndDropsTrailingSpaces(s: string)
    ensures var t := TrimEnd(s);
      t == s[..|t|] && forall k :: |t| <= k < |s| ==> IsQtSpace(s[k])
  {
    if s != [] && IsQtSpace(s[|s| - 1]) {
      TrimEndDropsTrailingSpaces(s[..|s| - 1]);
    }
  }

  /** White space after a prefix of a suffix of `s` is white space of `s`. */
  lemma TrailingSpacesOfSuffix(s: string, i: int, front: string, n: int)
    requires 0 <= i <= |s| && front == s[i..] && 0 <= n <= |front|
    requires forall k :: n <= k < |front| ==> IsQtSpace(front[k])
    ensures front[..n] == s[i..i + n]
    ensures forall k :: i + n <= k < |s| ==> IsQtSpace(s[k])
  {
    forall k | i + n <= k < |s|
      ensures IsQtSpace(s[k])
    {
      assert s[k] == front[k - i];
    }
  }

  /** `trimmed()` removes white space at both ends and nothing else: the
      result is the run of `s` between a white-space prefix, of the length
      TrimStart drops, and a white-space suffix. */
  lemma TrimmedIsMiddle(s: string)
    ensures var t, i := Trimmed(s), |s| - |TrimStart(s)|;
      && 0 <= i <= i + |t| <= |s| && t == s[i..i + |t|]
      && (forall k :: 0 <= k < i ==> IsQtSpace(s[k]))
      && (forall k :: i + |t| <= k < |s| ==> IsQtSpace(s[k]))
  {
    var front := TrimStart(s);
    TrimStartDropsLeadingSpaces(s);
    TrimEndDropsTrailingSpaces(front);
    TrailingSpacesOfSuffix(s, |s| - |front|, front, |TrimEnd(front)|);
  }

  lemma TrimmedIdempotent(s: string)
    ensures Trimmed(Trimmed(s)) == Trimmed(s)
  {
    var t := Trimmed(s);
    assert TrimStart(t) == t;
    assert TrimEnd(t) == t;
  }

  // ---------------------------------------------------------------------
  // First-match searches over the lines of a listing

  /** The field `pick` extracts from the first line it accepts, or the empty
      string when it accepts none: the `for (line : lines) { if (...)
      return ...; } return QString();` pattern. */
  function FirstMatch(lines: seq<string>, pick: string -> Option<string>): (r: string)
    ensures (forall i :: 0 <= i < |lines| ==> pick(lines[i]).None?) ==> r == []
    ensures forall k :: 0 <= k < |lines| && pick(lines[k]).Some?
                        && (forall j :: 0 <= j < k ==> pick(lines[j]).None?) ==>
                        r == pick(lines[k]).value
  {
    if lines == [] then []
    else match pick(lines[0])
      case Some(field) => field
      case None => FirstMatch(lines[1..], pick)
  }

  function Lines(output: string): seq<string>
  {
    Split(output, '\n')
  }

  /** A `pactl list cards short` line naming the device, with a second
      tab-separated field. */
  predicate IsCardLine(line: string, mac: string)
  {
    Contains(line, mac) && |Split(line, '\t')| >= 2
  }

  function CardField(line: string, mac: string): Option<string>
  {
    if IsCardLine(line, mac) then Some(Split(line, '\t')[1]) else None
  }

  /** `getCardForDevice`: the second tab-separated field of the first line
      that contains the address and has a second field; otherwise empty. */
  function CardForDevice(cardsShort: string, mac: string): (card: string)
    ensures var lines := Lines(cardsShort);
      (forall i :: 0 <= i < |lines| ==> !IsCardLine(lines[i], mac)) ==> card == []
    ensures var lines := Lines(cardsShort);
      forall k :: 0 <= k < |lines| && IsCardLine(lines[k], mac)
                  && (forall j :: 0 <= j < k ==> !IsCardLine(lines[j], mac)) ==>
                  card == Split(lines[k], '\t')[1]
  {
    FirstMatch(Lines(cardsShort), line => CardField(line, mac))
  }

  /** A `pactl list sinks short` line of a Bluetooth sink of the device,
      with a second white-space-separated field. */
  predicate IsSinkLine(line: string, mac: string)
  {
    Contains(line, "bluez") && Contains(line, mac) && |SplitOnWhitespace(line)| >= 2
  }

  function SinkField(line: string, mac: string): Option<string>
  {
    if IsSinkLine(line, mac) then Some(SplitOnWhitespace(line)[1]) else None
  }

  /** `getSinkForDevice`: the second white-space-separated field of the first
      line that contains both "bluez" and the address; otherwise empty. */
  function SinkForDevice(sinksShort: string, mac: string): (sink: string)
    ensures var lines := Lines(sinksShort);
      (forall i :: 0 <= i < |lines| ==> !IsSinkLine(lines[i], mac)) ==> sink == []
    ensures var lines := Lines(sinksShort);
      forall k :: 0 <= k < |lines| && IsSinkLine(lines[k], mac)
                  && (forall j :: 0 <= j < k ==> !IsSinkLine(lines[j], mac)) ==>
                  sink == SplitOnWhitespace(lines[k])[1]
  {
    FirstMatch(Lines(sinksShort), line => SinkField(line, mac))
  }

  function IndexField(line: string, sinkName: string): Option<string>
  {
    if Contains(line, sinkName) then Some(Split(line, '\t')[0]) else None
  }

  /** `getSinkIndex`: the first tab-separated field of the first line that
      contains the sink name (every line has a first field); otherwise
      empty. */
  function SinkIndex(sinksShort: string, sinkName: string): (index: string)
    ensures var lines := Lines(sinksShort);
      (forall i :: 0 <= i < |lines| ==> !Contains(lines[i], sinkName)) ==> index == []
    ensures var lines := Lines(sinksShort);
      forall k :: 0 <= k < |lines| && Contains(lines[k], sinkName)
                  && (forall j :: 0 <= j < k ==> !Contains(lines[j], sinkName)) ==>
                  index == Split(lines[k], '\t')[0]
  {
    FirstMatch(Lines(sinksShort), line => IndexField(line, sinkName))
  }

  // ---------------------------------------------------------------------
  // The sink-input scan of hasActiveAudio

  const SinkLabel := "Sink:"
  const CorkedLabel := "Corked:"
  const NotCorked := "no"

  /** The sink index a `Sink:` line names: its second space-separated
      field, if it has one. */
  function SinkToken(trimmed: string): Option<string>
  {
    if SinkLabel <= trimmed && |Split(trimmed, ' ')| >= 2 then Some(Split(trimmed, ' ')[1]) else None
  }

  /** The sink index named by the last `Sink:` line after the last
      `Corked:` line of `lines`, or empty when there is none. */
  function SinkSinceLastCorked(lines: seq<string>): string
  {
    if lines == [] then []
    else
      var t := Trimmed(lines[|lines| - 1]);
      if CorkedLabel <= t then []
      else match SinkToken(t)
        case Some(index) => index
        case None => SinkSinceLastCorked(lines[..|lines| - 1])
  }

  /** One more line: a `Corked:` line resets, a `Sink:` line with a token
      replaces, any other line keeps the sink index. */
  lemma SinkSinceLastCorkedStep(lines: seq<string>, i: int)
    requires 0 <= i < |lines|
    ensures var t := Trimmed(lines[i]);
      SinkSinceLastCorked(lines[..i + 1])
        == if CorkedLabel <= t then []
           else if SinkToken(t).Some? then SinkToken(t).value
           else SinkSinceLastCorked(lines[..i])
  {
    assert lines[..i + 1][..i] == lines[..i];
    assert lines[..i + 1][i] == lines[i];
  }

  /** Line `k` reports an uncorked input whose `Sink:` line, since the
      previous `Corked:` line, named `sinkIndex`. */
  predicate PlayingInputAt(lines: seq<string>, k: int, sinkIndex: string)
    requires 0 <= k < |lines|
  {
    var t := Trimmed(lines[k]);
    CorkedLabel <= t && Contains(t, NotCorked) && SinkSinceLastCorked(lines[..k]) == sinkIndex
  }

  /** What one line does to the scan: a `Corked:` line (never also a
      `Sink:` line) reports a playing input exactly when it contains "no"
      and the remembered index is the sink's, and leaves no index behind;
      any other line reports nothing and updates the index as
      SinkSinceLastCorked does. */
  lemma ScanStep(lines: seq<string>, i: int, sinkIndex: string)
    requires 0 <= i < |lines|
    ensures var t := Trimmed(lines[i]);
      && (SinkLabel <= t ==> !(CorkedLabel <= t))
      && (CorkedLabel <= t ==>
            && SinkSinceLastCorked(lines[..i + 1]) == []
            && (PlayingInputAt(lines, i, sinkIndex)
                <==> Contains(t, NotCorked) && SinkSinceLastCorked(lines[..i]) == sinkIndex))
      && (!(CorkedLabel <= t) ==>
            && !PlayingInputAt(lines, i, sinkIndex)
            && SinkSinceLastCorked(lines[..i + 1])
               == if SinkLabel <= t && |Split(t, ' ')| >= 2 then Split(t, ' ')[1]
                  else SinkSinceLastCorked(lines[..i]))
  {
    var t := Trimmed(lines[i]);
    SinkSinceLastCorkedStep(lines, i);
    if SinkLabel <= t {
      assert t[0] == 'S' != CorkedLabel[0];
    }
  }

  /** The scan over the lines of `pactl list sink-inputs`. */
  method ScanSinkInputs(lines: seq<string>, sinkIndex: string) returns (active: bool)
    ensures active <==> exists k :: 0 <= k < |lines| && PlayingInputAt(lines, k, sinkIndex)
  {
    var currentSinkIndex: string := [];
    var isCorked := true;
    for i := 0 to |lines|
      invariant currentSinkIndex == SinkSinceLastCorked(lines[..i])
      invariant isCorked
      invariant forall k :: 0 <= k < i ==> !PlayingInputAt(lines, k, sinkIndex)
    {
      ScanStep(lines, i, sinkIndex);
      var trimmed := Trimmed(lines[i]);
      if SinkLabel <= trimmed {
        var parts := Split(trimmed, ' ');
        if |parts| >= 2 {
          currentSinkIndex := parts[1];
        }
      }
      if CorkedLabel <= trimmed {
        if Contains(trimmed, NotCorked) {
          isCorked := false;
        } else {
          isCorked := true;
        }
        if currentSinkIndex == sinkIndex && !isCorked {
          return true;
        }
        currentSinkIndex := [];
        isCorked := true;
      }
    }
    return false;
  }

  /** After a `Corked:` line the scan starts again from an empty sink
      index. */
  lemma CorkedLineResetsScan(lines: seq<string>, k: int)
    requires 0 <= k < |lines| && CorkedLabel <= Trimmed(lines[k])
    ensures SinkSinceLastCorked(lines[..k + 1]) == []
  {
    assert lines[..k + 1][k] == lines[k];
  }

  /** A `Sink:` line before the last `Corked:` line does not count: with no
      `Sink:` line since line `j`, the scan holds no sink index. */
  lemma {:induction false} StaleSinkLineIgnored(lines: seq<string>, j: int, k: int)
    requires 0 <= j < k <= |lines|
    requires CorkedLabel <= Trimmed(lines[j])
    requires forall m :: j < m < k ==> SinkToken(Trimmed(lines[m])).None?
    ensures SinkSinceLastCorked(lines[..k]) == []
  {
    if k == j + 1 {
      CorkedLineResetsScan(lines, j);
    } else {
      StaleSinkLineIgnored(lines, j, k - 1);
      SinkSinceLastCorkedStep(lines, k - 1);
    }
  }

  /** `PulseAudio::hasActiveAudio`: look the sink's index up, give up when
      there is none, otherwise scan the sink inputs. */
  method HasActiveAudio(sinkName: string, sinksShort: string, sinkInputs: string)
    returns (active: bool, ran: seq<PactlCommand>)
    ensures SinkIndex(sinksShort, sinkName) == [] ==> !active && ran == [ListSinksShort]
    ensures SinkIndex(sinksShort, sinkName) != [] ==>
      && ran == [ListSinksShort, ListSinkInputs]
      && (active <==> exists k :: 0 <= k < |Lines(sinkInputs)|
                                  && PlayingInputAt(Lines(sinkInputs), k, SinkIndex(sinksShort, sinkName)))
  {
    ran := [ListSinksShort];
    var sinkIndex := SinkIndex(sinksShort, sinkName);
    if sinkIndex == [] {
      return false, ran;
    }
    ran := ran + [ListSinkInputs];
    active := ScanSinkInputs(Lines(sinkInputs), sinkIndex);
  }
}
