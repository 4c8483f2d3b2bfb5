/**
 * The seeker/switcher client's command interpretation: the timecode parser,
 * the reading of VLC's `get_length` answer, the decision taken on each frame
 * the hub sends, and the authentication frame the client opens with.
 *
 * VLC is an oracle here: every duration it would report is a parameter, and
 * so is the number that `random.randint` would draw.
 */
module Client {
  import opened Wrappers
  import opened Text
  import Binary64

  /** The role the hub assigns to seekers and the one it assigns to switchers. */
  const SeekerType := "seeker"
  const SwitcherType := "switcher"

  /** The duration `get_video_duration` derives from VLC's answer, `None` standing for a failed exchange. */
  function DurationOf(response: Option<string>): (d: nat)
    ensures response.Some? && AllDigits(response.value) ==> d == Value(response.value)
    ensures response.None? || !AllDigits(response.value) ==> d == 0
  {
    match response
    case Some(text) => if AllDigits(text) then Value(text) else 0
    case None => 0
  }

  /** A duration VLC reports in its canonical decimal form is read back exactly. */
  lemma DurationOfRendered(n: nat)
    ensures DurationOf(Some(NatToString(n))) == n
  {
  }

  /** No answer, an empty answer and an answer with any non-digit all mean a duration of 0. */
  lemma DurationOfNonNumeric(response: Option<string>)
    requires response.None? || response.value == [] || exists i :: 0 <= i < |response.value| && !IsDigit(response.value[i])
    ensures DurationOf(response) == 0
  {
  }

  /**
   * The part of `tc` that a pattern anchored with `$` must match: Python's `$`
   * also matches just before a single final newline.
   */
  function Body(tc: string): (b: string)
    ensures b == tc || b + "\n" == tc
    ensures |tc| > 0 && tc[|tc| - 1] == '\n' ==> b + "\n" == tc
  {
    if |tc| > 0 && tc[|tc| - 1] == '\n' then tc[..|tc| - 1] else tc
  }

  /** `s` is some digits followed by a percent sign. */
  predicate IsPercent(s: string) {
    |s| > 0 && s[|s| - 1] == '%' && AllDigits(s[..|s| - 1])
  }

  /**
   * `parse_timecode(tc)`: the first of `hh:mm:ss`, `mm:ss`, `ss`, `p%` and `-1`
   * that `tc` matches decides the number of seconds; no match gives `None`.
   * `duration` is what VLC reports when a pattern needs it and `pick` is the
   * draw behind `random.randint(0, duration)`.
   */
  function ParseTimecode(tc: string, duration: nat, pick: nat): (r: Option<nat>)
    ensures tc == "-1" ==> r.Some? && r.value <= duration
    ensures r.None? ==> tc != "-1" && !AllDigits(Body(tc)) && !IsPercent(Body(tc))
  {
    MinusOneShape();
    var b := Body(tc);
    var fields := Split(b, ':');
    if |fields| == 3 && AllDigits(fields[0]) && AllDigits(fields[1]) && AllDigits(fields[2]) then
      Some(Value(fields[0]) * 3600 + Value(fields[1]) * 60 + Value(fields[2]))
    else if |fields| == 2 && AllDigits(fields[0]) && AllDigits(fields[1]) then
      Some(Value(fields[0]) * 60 + Value(fields[1]))
    else if AllDigits(b) then
      Some(Value(b))
    else if IsPercent(b) then
      Some(Binary64.PercentOf(Value(b[..|b| - 1]), duration))
    else if tc == "-1" then
      Some(pick % (duration + 1))
    else
      None
  }

  /** `-1` is a single field that is neither a digit string nor a percentage. */
  lemma MinusOneShape()
    ensures Body("-1") == "-1" && Split("-1", ':') == ["-1"]
    ensures !AllDigits("-1") && !IsPercent("-1")
  {
    assert !IsDigit("-1"[0]);
    OneField("-1");
    assert "-1"[1] != '%';
  }

  /** A non-digit never occurs in a string of digits. */
  lemma DigitsFree(s: string, c: char)
    requires Digits(s) && !IsDigit(c)
    ensures c !in s
  {
    forall i | 0 <= i < |s|
      ensures s[i] != c
    {
      assert IsDigit(s[i]);
    }
  }

  /** A string without a colon is a single field. */
  lemma OneField(s: string)
    requires ':' !in s
    ensures Split(s, ':') == [s]
  {
  }

  /** A string of digits has no colon, so it is a single field. */
  lemma DigitsOneField(s: string)
    requires Digits(s)
    ensures Split(s, ':') == [s]
  {
    DigitsFree(s, ':');
  }

  /** Digits followed by one character other than a colon are a single field. */
  lemma DigitsThenChar(s: string, c: char)
    requires Digits(s) && c != ':'
    ensures Split(s + [c], ':') == [s + [c]]
  {
    DigitsFree(s, ':');
    assert ':' !in s + [c];
  }

  /** A string that ends in a digit is its own `Body`. */
  lemma BodyOfDigitEnd(s: string)
    requires |s| > 0 && IsDigit(s[|s| - 1])
    ensures Body(s) == s
  {
  }

  /** Three digit groups joined by colons split back into those groups. */
  lemma {:induction false} ThreeFields(h: string, m: string, s: string)
    requires Digits(h) && Digits(m) && Digits(s)
    ensures Split(h + ":" + m + ":" + s, ':') == [h, m, s]
  {
    DigitsFree(h, ':');
    DigitsFree(m, ':');
    DigitsFree(s, ':');
    assert [h, m, s][1..] == [m, s] && [m, s][1..] == [s];
    assert Join([m, s], ':') == m + ":" + s;
    assert Join([h, m, s], ':') == h + ":" + m + ":" + s;
    SplitJoin([h, m, s], ':');
  }

  /** Two digit groups joined by a colon split back into those groups. */
  lemma {:induction false} TwoFields(m: string, s: string)
    requires Digits(m) && Digits(s)
    ensures Split(m + ":" + s, ':') == [m, s]
  {
    DigitsFree(m, ':');
    DigitsFree(s, ':');
    assert [m, s][1..] == [s];
    assert Join([m, s], ':') == m + ":" + s;
    SplitJoin([m, s], ':');
  }

  /** `hh:mm:ss`: three digit groups give `h * 3600 + m * 60 + s`, whatever VLC reports. */
  lemma {:induction false} HoursMinutesSeconds(h: string, m: string, s: string, duration: nat, pick: nat)
    requires AllDigits(h) && AllDigits(m) && AllDigits(s)
    ensures ParseTimecode(h + ":" + m + ":" + s, duration, pick) == Some(Value(h) * 3600 + Value(m) * 60 + Value(s))
  {
    var tc := h + ":" + m + ":" + s;
    assert tc[|tc| - 1] == s[|s| - 1];
    BodyOfDigitEnd(tc);
    ThreeFields(h, m, s);
  }

  /** `mm:ss`: two digit groups give `m * 60 + s`; the minutes are not limited to 59. */
  lemma {:induction false} MinutesSeconds(m: string, s: string, duration: nat, pick: nat)
    requires AllDigits(m) && AllDigits(s)
    ensures ParseTimecode(m + ":" + s, duration, pick) == Some(Value(m) * 60 + Value(s))
  {
    var tc := m + ":" + s;
    assert tc[|tc| - 1] == s[|s| - 1];
    BodyOfDigitEnd(tc);
    TwoFields(m, s);
  }

  /** `b` is three digit groups joined by colons, the `hh:mm:ss` pattern. */
  ghost predicate ThreeGroups(b: string) {
    exists h, m, s :: AllDigits(h) && AllDigits(m) && AllDigits(s) && b == h + ":" + m + ":" + s
  }

  /** `b` is two digit groups joined by a colon, the `mm:ss` pattern. */
  ghost predicate TwoGroups(b: string) {
    exists m, s :: AllDigits(m) && AllDigits(s) && b == m + ":" + s
  }

  /**
   * A timecode is accepted exactly when it is `-1` or the part the anchored
   * patterns see fits `hh:mm:ss`, `mm:ss`, `ss` or `p%`; anything else gives `None`.
   */
  lemma AcceptedShapes(tc: string, duration: nat, pick: nat)
    ensures ParseTimecode(tc, duration, pick).Some? <==>
      || tc == "-1"
      || ThreeGroups(Body(tc)) || TwoGroups(Body(tc))
      || AllDigits(Body(tc)) || IsPercent(Body(tc))
  {
    AcceptedHasShape(tc, duration, pick);
    ShapeAccepted(tc, duration, pick);
  }

  /** What the colon patterns accept is three or two digit groups. */
  lemma AcceptedHasShape(tc: string, duration: nat, pick: nat)
    ensures var fields := Split(Body(tc), ':');
      && (|fields| == 3 && AllDigits(fields[0]) && AllDigits(fields[1]) && AllDigits(fields[2]) ==> ThreeGroups(Body(tc)))
      && (|fields| == 2 && AllDigits(fields[0]) && AllDigits(fields[1]) ==> TwoGroups(Body(tc)))
  {
    var b := Body(tc);
    var fields := Split(b, ':');
    if |fields| == 3 {
      JoinSplit(b, ':');
      JoinThree(fields, ':');
      var h, m, s := fields[0], fields[1], fields[2];
      assert b == h + ":" + m + ":" + s;
    } else if |fields| == 2 {
      JoinSplit(b, ':');
      JoinTwo(fields, ':');
      var m, s := fields[0], fields[1];
      assert b == m + ":" + s;
    }
  }

  /** Three pieces joined by `c`. */
  lemma JoinThree(parts: seq<string>, c: char)
    requires |parts| == 3
    ensures Join(parts, c) == parts[0] + [c] + parts[1] + [c] + parts[2]
  {
    assert parts[1..] == [parts[1], parts[2]] && parts[1..][1..] == [parts[2]];
    JoinTwo(parts[1..], c);
  }

  /** Two pieces joined by `c`. */
  lemma JoinTwo(parts: seq<string>, c: char)
    requires |parts| == 2
    ensures Join(parts, c) == parts[0] + [c] + parts[1]
  {
    assert parts[1..] == [parts[1]];
  }

  /** Three or two digit groups are accepted by the colon patterns. */
  lemma {:induction false} ShapeAccepted(tc: string, duration: nat, pick: nat)
    ensures ThreeGroups(Body(tc)) || TwoGroups(Body(tc)) ==> ParseTimecode(tc, duration, pick).Some?
  {
    var b := Body(tc);
    if ThreeGroups(b) {
      var h, m, s :| AllDigits(h) && AllDigits(m) && AllDigits(s) && b == h + ":" + m + ":" + s;
      ThreeFields(h, m, s);
    } else if TwoGroups(b) {
      var m, s :| AllDigits(m) && AllDigits(s) && b == m + ":" + s;
      TwoFields(m, s);
    }
  }

  /** `ss`: a string of digits gives its value. */
  lemma {:induction false} Seconds(s: string, duration: nat, pick: nat)
    requires AllDigits(s)
    ensures ParseTimecode(s, duration, pick) == Some(Value(s))
  {
    BodyOfDigitEnd(s);
    DigitsOneField(s);
  }

  /** The canonical rendering of any number of seconds parses back to that number. */
  lemma SecondsRoundTrip(n: nat, duration: nat, pick: nat)
    ensures ParseTimecode(NatToString(n), duration, pick) == Some(n)
  {
    Seconds(NatToString(n), duration, pick);
  }

  /** `-1` asks for a random position: it is not a digit string, and the draw lies in `[0, duration]`. */
  lemma RandomWithinDuration(duration: nat, pick: nat)
    ensures !AllDigits("-1")
    ensures ParseTimecode("-1", duration, pick) == Some(pick % (duration + 1))
    ensures ParseTimecode("-1", duration, pick).value <= duration
    ensures duration == 0 ==> ParseTimecode("-1", duration, pick) == Some(0)
  {
    MinusOneShape();
  }

  /** Every position in `[0, duration]` is a possible outcome of `-1`. */
  lemma RandomCoversDuration(duration: nat, v: nat)
    requires v <= duration
    ensures ParseTimecode("-1", duration, v) == Some(v)
  {
    RandomWithinDuration(duration, v);
  }

  /** `p%` with `p <= 100` of a duration below 2^53 seconds stays within the duration. */
  lemma {:induction false} PercentWithinDuration(p: string, duration: nat, pick: nat)
    requires AllDigits(p) && Value(p) <= 100 && duration < Binary64.Pow2(53)
    ensures ParseTimecode(p + "%", duration, pick) == Some(Binary64.PercentOf(Value(p), duration))
    ensures ParseTimecode(p + "%", duration, pick).value <= duration
  {
    var tc := p + "%";
    assert Body(tc) == tc;
    DigitsThenChar(p, '%');
    assert tc[..|tc| - 1] == p;
    assert !AllDigits(tc) by {
      assert !IsDigit(tc[|tc| - 1]);
    }
    Binary64.PercentAtMost(Value(p), duration);
  }

  /** Whether a timecode is accepted never depends on what VLC reports or on the random draw. */
  lemma AcceptanceIgnoresOracles(tc: string, d1: nat, pick1: nat, d2: nat, pick2: nat)
    ensures ParseTimecode(tc, d1, pick1).None? == ParseTimecode(tc, d2, pick2).None?
  {
  }

  /** The decimal values of the digit groups in the examples below. */
  lemma ValueExamples()
    ensures Value("01") == 1 && Value("02") == 2 && Value("03") == 3
    ensures Value("45") == 45 && Value("75") == 75
  {
    assert "01"[..1] == "0" && "02"[..1] == "0" && "03"[..1] == "0";
    assert "45"[..1] == "4" && "75"[..1] == "7";
    assert "0"[..0] == "" && "4"[..0] == "" && "7"[..0] == "";
  }

  /** The example timecodes, assembled from their digit groups. */
  lemma ExampleTexts()
    ensures "01" + ":" + "02" + ":" + "03" == "01:02:03"
    ensures "02" + ":" + "03" == "02:03"
    ensures "01" + ":" + "75" == "01:75"
    ensures "50" + "%" == "50%" && "29" + "%" == "29%"
  {
  }

  /** `01:02:03` is 3723 seconds. */
  lemma HoursExample(duration: nat, pick: nat)
    ensures ParseTimecode("01:02:03", duration, pick) == Some(3723)
  {
    ExampleTexts();
    ValueExamples();
    HoursMinutesSeconds("01", "02", "03", duration, pick);
  }

  /** `02:03` is 123 seconds. */
  lemma MinutesExample(duration: nat, pick: nat)
    ensures ParseTimecode("02:03", duration, pick) == Some(123)
  {
    ExampleTexts();
    ValueExamples();
    MinutesSeconds("02", "03", duration, pick);
  }

  /** `01:75` is 135 seconds: the seconds are not range-checked. */
  lemma UncheckedSecondsExample(duration: nat, pick: nat)
    ensures ParseTimecode("01:75", duration, pick) == Some(135)
  {
    ExampleTexts();
    ValueExamples();
    MinutesSeconds("01", "75", duration, pick);
  }

  /** `45` is 45 seconds, and so is `45` followed by one newline, which `$` lets through. */
  lemma SecondsExamples(duration: nat, pick: nat)
    ensures ParseTimecode("45", duration, pick) == Some(45)
    ensures ParseTimecode("45\n", duration, pick) == Some(45)
  {
    ValueExamples();
    Seconds("45", duration, pick);
    assert Body("45\n") == "45";
    DigitsOneField("45");
  }

  /** 50% of 200 seconds is 100 seconds. */
  lemma PercentHalfExample(pick: nat)
    ensures ParseTimecode("50%", 200, pick) == Some(100)
  {
    Binary64.Pow2Table();
    assert Value("50") == 50 by {
      assert "50"[..1] == "5" && "5"[..0] == "";
    }
    ExampleTexts();
    PercentWithinDuration("50", 200, pick);
    Binary64.PercentHalf();
  }

  /** 29% of 100 seconds is 28 seconds, not 29: the product is formed in binary64. */
  lemma PercentBelowExample(pick: nat)
    ensures ParseTimecode("29%", 100, pick) == Some(28)
  {
    Binary64.Pow2Table();
    assert Value("29") == 29 by {
      assert "29"[..1] == "2" && "2"[..0] == "";
    }
    ExampleTexts();
    PercentWithinDuration("29", 100, pick);
    Binary64.PercentBelowExact();
  }

  /** `abc` fits no pattern. */
  lemma WordRejected(duration: nat, pick: nat)
    ensures ParseTimecode("abc", duration, pick) == None
  {
    OneField("abc");
    assert !IsDigit("abc"[0]);
    assert "abc"[2] != '%';
  }

  /** The empty timecode fits no pattern. */
  lemma EmptyRejected(duration: nat, pick: nat)
    ensures ParseTimecode("", duration, pick) == None
  {
    OneField("");
  }

  /** `-1` must be the whole timecode: with a trailing space it is refused. */
  lemma PaddedRandomRejected(duration: nat, pick: nat)
    ensures ParseTimecode("-1 ", duration, pick) == None
  {
    OneField("-1 ");
    assert !IsDigit("-1 "[0]);
    assert "-1 "[2] != '%';
  }

  /** Four digit groups joined by colons split back into those groups. */
  lemma {:induction false} FourFields(a: string, b: string, c: string, d: string)
    requires Digits(a) && Digits(b) && Digits(c) && Digits(d)
    ensures Split(a + ":" + b + ":" + c + ":" + d, ':') == [a, b, c, d]
  {
    DigitsFree(a, ':');
    DigitsFree(b, ':');
    DigitsFree(c, ':');
    DigitsFree(d, ':');
    var parts := [a, b, c, d];
    assert parts[1..] == [b, c, d] && parts[1..][1..] == [c, d] && parts[1..][1..][1..] == [d];
    assert Join([c, d], ':') == c + ":" + d;
    assert Join([b, c, d], ':') == b + ":" + c + ":" + d;
    assert Join(parts, ':') == a + ":" + b + ":" + c + ":" + d;
    SplitJoin(parts, ':');
  }

  /** Four colon-separated digit groups fit no pattern: there is no `dd:hh:mm:ss` form. */
  lemma {:induction false} FourGroupsRejected(a: string, b: string, c: string, d: string, duration: nat, pick: nat)
    requires AllDigits(a) && AllDigits(b) && AllDigits(c) && AllDigits(d)
    ensures ParseTimecode(a + ":" + b + ":" + c + ":" + d, duration, pick) == None
  {
    var tc := a + ":" + b + ":" + c + ":" + d;
    FourFields(a, b, c, d);
    assert tc[|tc| - 1] == d[|d| - 1];
    BodyOfDigitEnd(tc);
    assert tc[|a|] == ':' && !IsDigit(tc[|a|]);
    assert !AllDigits(tc) && !IsPercent(tc);
    assert |tc| > 2;
  }

  /** The frame the client opens its session with: the token, a colon and the role. */
  function AuthFrame(token: string, clientType: string): (f: string)
    ensures ':' !in token ==> SplitOnce(f, ':') == Some((token, clientType))
    ensures |f| == |token| + 1 + |clientType|
  {
    var f := token + ":" + clientType;
    if ':' !in token then
      SplitOnceAt(token, ':', clientType);
      assert token + [':'] + clientType == f;
      f
    else
      f
  }

  /** The prefix the hub's seek frames carry. */
  const SeekPrefix := "/seek "

  /** The frame that switches a switcher. */
  const SwitchFrame := "/switch"

  /** The client's answer after a successful seek. */
  function SeekedReply(seconds: nat, duration: nat): (reply: string)
    ensures Split(reply, ' ') == ["seeked", NatToString(seconds), "of", NatToString(duration)]
  {
    ReplyFields(NatToString(seconds), NatToString(duration));
    "seeked " + NatToString(seconds) + " of " + NatToString(duration)
  }

  /** The reply's four words, two of them digit strings, split back apart at the spaces. */
  lemma {:induction false} ReplyFields(a: string, b: string)
    requires Digits(a) && Digits(b)
    ensures Split("seeked " + a + " of " + b, ' ') == ["seeked", a, "of", b]
  {
    DigitsFree(a, ' ');
    DigitsFree(b, ' ');
    var parts := ["seeked", a, "of", b];
    assert parts[1..] == [a, "of", b] && parts[1..][1..] == ["of", b] && parts[1..][1..][1..] == [b];
    assert Join(["of", b], ' ') == "of " + b;
    assert Join([a, "of", b], ' ') == a + " of " + b;
    assert Join(parts, ' ') == "seeked " + a + " of " + b;
    SplitJoin(parts, ' ');
  }

  /** What the client does with one frame from the hub. */
  datatype Action =
    | Seek(seconds: nat, vlcCommand: string, reply: string)  // tells VLC to seek, then answers the hub
    | BadTimecode(timecode: string)                          // a seek frame whose timecode parses to nothing
    | Switch                                                 // the switcher action, which sends nothing
    | Ignore                                                 // every other frame

  /**
   * The decision on one received frame. `duration` and `pick` feed the timecode
   * parser; `replyDuration` is the second `get_length` answer, the one the reply reports.
   */
  function FrameAction(clientType: string, message: string, duration: nat, pick: nat, replyDuration: nat): (a: Action)
    ensures (a.Seek? || a.BadTimecode?) <==> StartsWith(message, SeekPrefix) && clientType == SeekerType
    ensures a.Switch? <==> message == SwitchFrame && clientType == SwitcherType
    ensures a.Seek? ==> ParseTimecode(Strip(message[6..]), duration, pick) == Some(a.seconds)
    ensures a.Seek? ==> a.reply == SeekedReply(a.seconds, replyDuration) && a.vlcCommand == "seek " + NatToString(a.seconds)
    ensures a.BadTimecode? ==> a.timecode == Strip(message[6..]) && ParseTimecode(a.timecode, duration, pick).None?
  {
    if StartsWith(message, SeekPrefix) && clientType == SeekerType then
      var timecode := Strip(message[6..]);
      match ParseTimecode(timecode, duration, pick)
      case Some(seconds) => Seek(seconds, "seek " + NatToString(seconds), SeekedReply(seconds, replyDuration))
      case None => BadTimecode(timecode)
    else if message == SwitchFrame && clientType == SwitcherType then
      Switch
    else
      Ignore
  }

  /** Only a seeker ever seeks, and only a switcher ever switches. */
  lemma RolesAreSeparate(clientType: string, message: string, duration: nat, pick: nat, replyDuration: nat)
    ensures clientType != SeekerType ==> !FrameAction(clientType, message, duration, pick, replyDuration).Seek?
    ensures clientType != SwitcherType ==> !FrameAction(clientType, message, duration, pick, replyDuration).Switch?
  {
  }

  /** A seeker answers a seek frame exactly when its timecode parses; a bad timecode gets no answer. */
  lemma ReplyIffParsed(message: string, duration: nat, pick: nat, replyDuration: nat)
    requires StartsWith(message, SeekPrefix)
    ensures FrameAction(SeekerType, message, duration, pick, replyDuration).Seek?
        <==> ParseTimecode(Strip(message[6..]), duration, pick).Some?
  {
  }

  /**
   * A seek frame is dropped without an answer exactly when its stripped timecode
   * is not `-1` and fits none of the four patterns.
   */
  lemma BadTimecodeDropped(message: string, duration: nat, pick: nat, replyDuration: nat)
    requires StartsWith(message, SeekPrefix)
    ensures var tc := Strip(message[6..]);
      FrameAction(SeekerType, message, duration, pick, replyDuration).BadTimecode? <==>
        (tc != "-1" && !ThreeGroups(Body(tc)) && !TwoGroups(Body(tc)) && !AllDigits(Body(tc)) && !IsPercent(Body(tc)))
  {
    AcceptedShapes(Strip(message[6..]), duration, pick);
  }

  /** Surrounding whitespace of the timecode is ignored: `/seek  01:02:03 ` seeks to 3723. */
  lemma SeekFrameExample(duration: nat, pick: nat, replyDuration: nat)
    ensures FrameAction(SeekerType, "/seek  01:02:03 ", duration, pick, replyDuration).Seek?
    ensures FrameAction(SeekerType, "/seek  01:02:03 ", duration, pick, replyDuration).seconds == 3723
  {
    var message := "/seek  01:02:03 ";
    assert StartsWith(message, SeekPrefix);
    assert message[6..] == [' '] + "01:02:03" + [' '];
    StripPadded([' '], "01:02:03", [' ']);
    HoursExample(duration, pick);
    SeekFrameSeeks(message, "01:02:03", 3723, duration, pick, replyDuration);
  }

  /** A seek frame whose stripped timecode parses to `v` makes a seeker seek to `v` and report it. */
  lemma SeekFrameSeeks(message: string, tc: string, v: nat, duration: nat, pick: nat, replyDuration: nat)
    requires StartsWith(message, SeekPrefix) && Strip(message[6..]) == tc
    requires ParseTimecode(tc, duration, pick) == Some(v)
    ensures FrameAction(SeekerType, message, duration, pick, replyDuration)
         == Seek(v, "seek " + NatToString(v), SeekedReply(v, replyDuration))
  {
  }
}
