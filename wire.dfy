/**
 * The client and the hub facing each other: the authentication frame the
 * client opens with against the hub's parse of it, and the frames the hub
 * sends against the client's decision on each of them.
 */
module Wire {
  import opened Text
  import opened Registry
  import Client
  import Server

  /** The client's role names are the hub's. */
  lemma RoleNamesAgree()
    ensures Client.SeekerType == Name(Seeker) && Client.SwitcherType == Name(Switcher)
    ensures Client.SwitchFrame == Server.SwitchFrame
  {
  }

  /**
   * The client's first frame admits it, with the role its configured type names in
   * any letter case, exactly when the token has no colon; a token with a colon is
   * always refused, since the hub splits at the first colon.
   */
  lemma AuthRoundTrip(token: string, clientType: string, role: Role)
    ensures Server.ParseAuth(Client.AuthFrame(token, clientType), token) == Server.Accepted(role)
        <==> ':' !in token && Lower(clientType) == Name(role)
  {
    var frame := Client.AuthFrame(token, clientType);
    Server.AcceptedIff(frame, token, role);
    assert frame == token + ":" + clientType;
    assert frame[..|token| + 1] == token + ":";
    assert frame[|token| + 1..] == clientType;
  }

  /** A client configured as a seeker or a switcher is admitted with that role. */
  lemma ConfiguredRoleAdmitted(token: string, role: Role)
    requires ':' !in token
    ensures Server.ParseAuth(Client.AuthFrame(token, Name(role)), token) == Server.Accepted(role)
  {
    AuthRoundTrip(token, Name(role), role);
    assert Lower("seeker") == "seeker" && Lower("switcher") == "switcher";
  }

  /**
   * The hub ignores the letter case of the client type: any spelling of a role
   * name in capitals, small letters or a mix, the Kelvin sign standing for `k`,
   * is admitted with that role.
   */
  lemma AnyCaseAdmitted(token: string, clientType: string, role: Role)
    requires ':' !in token
    requires |clientType| == |Name(role)| && forall i :: 0 <= i < |clientType| ==> CaseVariant(clientType[i], Name(role)[i])
    ensures Server.ParseAuth(Client.AuthFrame(token, clientType), token) == Server.Accepted(role)
  {
    assert forall i :: 0 <= i < |Name(role)| ==> 'a' <= Name(role)[i] <= 'z';
    LowerMatches(clientType, Name(role));
    AuthRoundTrip(token, clientType, role);
  }

  /** A frame that does not start with `/`, the empty frame included, is ignored whatever the client's role. */
  lemma IgnoredFrame(clientType: string, message: string, duration: nat, pick: nat, replyDuration: nat)
    requires !StartsWith(message, "/")
    ensures Client.FrameAction(clientType, message, duration, pick, replyDuration) == Client.Ignore
  {
    if |message| >= 6 {
      assert message[..6][0] == message[0];
      assert message[..1] == [message[0]];
    }
    if |message| > 0 {
      assert message[..1] == [message[0]];
    }
    assert Client.SwitchFrame[0] == '/';
    assert Client.SwitchFrame[..1] == "/";
  }

  /**
   * The hub's own frames to a client (the welcome, the diagnostics and the echo of
   * what the client said, its seek reports included) never make it act.
   */
  lemma HubChatterIgnored(clientType: string, role: Role, said: string, badType: string, duration: nat, pick: nat, replyDuration: nat)
    ensures Client.FrameAction(clientType, Server.WelcomeText(role), duration, pick, replyDuration) == Client.Ignore
    ensures Client.FrameAction(clientType, Server.AuthFailedText, duration, pick, replyDuration) == Client.Ignore
    ensures Client.FrameAction(clientType, Server.InvalidTypeText(badType), duration, pick, replyDuration) == Client.Ignore
    ensures Client.FrameAction(clientType, Server.EchoText(said), duration, pick, replyDuration) == Client.Ignore
  {
    assert Server.WelcomeText(role)[..1] == "A";
    assert Server.AuthFailedText[..1] == "A";
    assert Server.InvalidTypeText(badType)[..1] == "I";
    assert Server.EchoText(said)[..1] == "S";
    IgnoredFrame(clientType, Server.WelcomeText(role), duration, pick, replyDuration);
    IgnoredFrame(clientType, Server.AuthFailedText, duration, pick, replyDuration);
    IgnoredFrame(clientType, Server.InvalidTypeText(badType), duration, pick, replyDuration);
    IgnoredFrame(clientType, Server.EchoText(said), duration, pick, replyDuration);
  }

  /**
   * A `/seek` command whose argument carries no surrounding blanks makes a seeker
   * seek exactly when its timecode parses, to the parsed second; without an
   * argument the seeker goes back to the start.
   */
  lemma SeekCommandReachesSeeker(args: seq<string>, duration: nat, pick: nat, replyDuration: nat)
    requires |args| > 0 ==> Unpadded(args[0])
    ensures var tc := if |args| > 0 then args[0] else "0";
      var action := Client.FrameAction(Client.SeekerType, Server.SeekFrame(args), duration, pick, replyDuration);
      && (action.Seek? <==> Client.ParseTimecode(tc, duration, pick).Some?)
      && (action.Seek? ==> action.seconds == Client.ParseTimecode(tc, duration, pick).value)
    ensures |args| == 0 ==>
      Client.FrameAction(Client.SeekerType, Server.SeekFrame(args), duration, pick, replyDuration).Seek?
      && Client.FrameAction(Client.SeekerType, Server.SeekFrame(args), duration, pick, replyDuration).seconds == 0
  {
    var tc := if |args| > 0 then args[0] else "0";
    var frame := Server.SeekFrame(args);
    if |args| == 0 {
      assert Unpadded("0");
      assert Value("0") == 0;
      Client.Seconds("0", duration, pick);
    }
    StripUnpadded(tc);
    assert StartsWith(frame, Client.SeekPrefix) && Strip(frame[6..]) == tc;
    match Client.ParseTimecode(tc, duration, pick)
    case Some(v) => Client.SeekFrameSeeks(frame, tc, v, duration, pick, replyDuration);
    case None =>
  }

  /** A seek command never moves a switcher, and a switch command never moves a seeker. */
  lemma CommandsReachTheirRole(args: seq<string>, duration: nat, pick: nat, replyDuration: nat)
    ensures Client.FrameAction(Client.SwitcherType, Server.SeekFrame(args), duration, pick, replyDuration) == Client.Ignore
    ensures Client.FrameAction(Client.SeekerType, Server.SwitchFrame, duration, pick, replyDuration) == Client.Ignore
    ensures Client.FrameAction(Client.SwitcherType, Server.SwitchFrame, duration, pick, replyDuration) == Client.Switch
  {
    assert Server.SeekFrame(args) != Server.SwitchFrame by {
      assert Server.SeekFrame(args)[1] == 's' && Server.SeekFrame(args)[2] == 'e';
    }
    assert Server.SwitchFrame[..6] != "/seek " by {
      assert Server.SwitchFrame[2] == 'w';
    }
  }
}
