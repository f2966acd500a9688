/**
  The online commands as a device sees them (gt06/commands.go): every text letter by letter, every
  numeric range in figures, every byte of the frame.
 */
module Gt06Texts {
  import opened Bytes
  import opened Wrappers
  import opened Text
  import opened Crc
  import opened Gt06Frame
  import opened Gt06Codec
  import opened Gt06Commands

  /** An ASCII string as bytes. */
  function Ascii(s: string): (b: bytes)
    ensures |b| == |s|
  {
    seq(|s|, i requires 0 <= i < |s| => s[i] as int % 0x100)
  }

  lemma Names()
    ensures Ascii("DYD") == DYD && Ascii("HFYD") == HFYD && Ascii("WHERE") == WHERE && Ascii("STATUS") == STATUS
    ensures Ascii("RESET") == RESET && Ascii("TIMER") == TIMER && Ascii("HBT") == HBT && Ascii("SERVER") == SERVER
    ensures Ascii("#") == [HASH] && Ascii(",") == [COMMA] && Ascii("1") == [0x31] && Ascii("0") == [0x30]
  {
  }

  // ---- Numbers ----

  /** Digits are worth their place: the last one counts once, the others ten times what they do without it. */
  lemma DigitsValueStep(s: bytes, c: byte)
    requires AllDigits(s) && 48 <= c <= 57
    ensures DigitsValue(s + [c]) == 10 * DigitsValue(s) + (c - 48) && DigitsValue([]) == 0
  {
    assert (s + [c])[..|s|] == s;
  }

  /** An optional sign, then digits; 64 bits. */
  lemma AtoiReads(digits: bytes)
    requires digits != [] && AllDigits(digits)
    ensures var n := DigitsValue(digits);
      && Atoi(digits) == Atoi([0x2B] + digits) == (if n < 0x8000_0000_0000_0000 then Some(n as int) else None)
      && Atoi([0x2D] + digits) == (if n <= 0x8000_0000_0000_0000 then Some(-(n as int)) else None)
  {
    hide DigitsValue;
    assert ([0x2B] + digits)[1..] == digits && ([0x2D] + digits)[1..] == digits;
    assert IsDigit(digits[0]);
  }

  lemma AtoiOfDecimal(n: nat)
    ensures Atoi(Trim(Decimal(n))) == if n < 0x8000_0000_0000_0000 then Some(n as int) else None
  {
    hide Atoi, Trim, Decimal, DigitsValue;
    var digits := Decimal(n);
    DecimalRoundTrip(n);
    AtoiReads(digits);
    assert IsDigit(digits[0]) && IsDigit(digits[|digits| - 1]);
    TrimNothing(digits);
  }

  // ---- Texts ----

  /** Up to 16 letters and digits. */
  predicate PasswordShape(pwd: bytes) {
    |pwd| <= 16 && forall i | 0 <= i < |pwd| :: 48 <= pwd[i] <= 57 || 65 <= pwd[i] <= 90 || 97 <= pwd[i] <= 122
  }

  /** Up to 64 letters, digits, points and dashes. */
  predicate HostShape(host: bytes) {
    && 1 <= |host| <= 64
    && forall i | 0 <= i < |host| ::
         48 <= host[i] <= 57 || 65 <= host[i] <= 90 || 97 <= host[i] <= 122 || host[i] == 46 || host[i] == 45
  }

  /** What stands behind the name of a command without arguments: an optional password and the closing sign. */
  function Closing(pwd: bytes): bytes {
    if pwd == [] then Ascii("#") else Ascii(",") + pwd + Ascii("#")
  }

  lemma ShapesAreSafe(w: bytes)
    ensures PasswordShape(w) <==> w == [] || SafePassword(w)
    ensures HostShape(w) <==> SafeHost(w)
  {
  }

  /** A password of another shape is refused, whatever the command, unless the text is overridden. */
  lemma PasswordRule(cmd: Command)
    requires Trim(cmd.raw) == [] && !PasswordShape(Trim(cmd.password))
    ensures CommandText(cmd) == Err(BadPassword)
  {
    hide Trim, GeneratedText;
    ShapesAreSafe(Trim(cmd.password));
  }

  /** The commands without a number. */
  lemma PlainTexts(cmd: Command)
    requires Trim(cmd.raw) == [] && PasswordShape(Trim(cmd.password))
    ensures cmd.typ == EngineCut ==> CommandText(cmd) == Ok(Ascii("DYD") + Closing(Trim(cmd.password)))
    ensures cmd.typ == EngineResume ==> CommandText(cmd) == Ok(Ascii("HFYD") + Closing(Trim(cmd.password)))
    ensures cmd.typ == RequestPosition ==> CommandText(cmd) == Ok(Ascii("WHERE") + Closing(Trim(cmd.password)))
    ensures cmd.typ == RequestStatus ==> CommandText(cmd) == Ok(Ascii("STATUS") + Closing(Trim(cmd.password)))
    ensures cmd.typ == Reboot ==> CommandText(cmd) == Ok(Ascii("RESET") + Closing(Trim(cmd.password)))
    ensures cmd.typ == Custom ==> CommandText(cmd) == Err(CustomNeedsRaw)
    ensures cmd.typ == OtherCommand ==> CommandText(cmd) == Err(Unsupported)
  {
    hide Trim, Ascii, WithPwd, Atoi, DYD, HFYD, WHERE, STATUS, RESET, TIMER, HBT, SERVER;
    var pwd := Trim(cmd.password);
    ShapesAreSafe(pwd);
    Names();
    WithPwdIsClosing(DYD, pwd);
    WithPwdIsClosing(HFYD, pwd);
    WithPwdIsClosing(WHERE, pwd);
    WithPwdIsClosing(STATUS, pwd);
    WithPwdIsClosing(RESET, pwd);
  }

  lemma WithPwdIsClosing(name: bytes, pwd: bytes)
    ensures WithPwd(name, pwd) == name + Closing(pwd)
  {
    hide Ascii;
    Names();
    assert name + ([COMMA] + pwd + [HASH]) == name + [COMMA] + pwd + [HASH];
  }

  /** The number a parameter stands for, if it is between the bounds. */
  function Asked(cmd: Command, key: string, least: int, most: int): Result<nat, CommandError>
    requires least >= 0
  {
    var n := Atoi(Trim(Param(cmd, key)));
    if n.None? then Err(NotNumeric) else if least <= n.value <= most then Ok(n.value) else Err(OutOfRange)
  }

  /** What a numeric command writes: the text with the number in it, or why there is none. */
  function Written(n: Result<nat, CommandError>, before: bytes, after: bytes): Result<bytes, CommandError> {
    if n.Err? then Err(n.error) else Ok(before + Decimal(n.value) + after)
  }

  /** Seconds from 5 to 18000, behind the password if there is one. */
  lemma IntervalTexts(cmd: Command)
    requires cmd.typ == SetInterval && Trim(cmd.raw) == [] && PasswordShape(Trim(cmd.password))
    ensures var pwd := Trim(cmd.password);
      var before := if pwd == [] then Ascii("TIMER,") else Ascii("TIMER,") + pwd + Ascii(",");
      CommandText(cmd) == Written(Asked(cmd, "seconds", 5, 18000), before, Ascii("#"))
  {
    hide Trim, Ascii, Atoi, Decimal, Param, IntervalText, PasswordShape, SafePassword;
    ShapesAreSafe(Trim(cmd.password));
    if Asked(cmd, "seconds", 5, 18000).Ok? {
      IntervalLetters(Trim(cmd.password), Asked(cmd, "seconds", 5, 18000).value);
    }
  }

  /** Minutes from 1 to 360; no password. */
  lemma HeartbeatTexts(cmd: Command)
    requires cmd.typ == SetHeartbeat && Trim(cmd.raw) == [] && PasswordShape(Trim(cmd.password))
    ensures CommandText(cmd) == Written(Asked(cmd, "minutes", 1, 360), Ascii("HBT,"), Ascii("#"))
  {
    hide Trim, Ascii, Atoi, Decimal, Param, HeartbeatText, PasswordShape, SafePassword;
    ShapesAreSafe(Trim(cmd.password));
    if Asked(cmd, "minutes", 1, 360).Ok? {
      HeartbeatLetters(Asked(cmd, "minutes", 1, 360).value);
    }
  }

  /** A host, then a port from 1 to 65535; no password. */
  lemma ServerTexts(cmd: Command)
    requires cmd.typ == SetServer && Trim(cmd.raw) == [] && PasswordShape(Trim(cmd.password))
    ensures var host := Trim(Param(cmd, "host"));
      CommandText(cmd) == if !HostShape(host) then Err(BadHost)
        else Written(Asked(cmd, "port", 1, 65535), Ascii("SERVER,1,") + host + Ascii(","), Ascii(",0#"))
  {
    hide Trim, Ascii, Atoi, Decimal, Param, ServerText, PasswordShape, SafePassword, HostShape, SafeHost;
    ShapesAreSafe(Trim(cmd.password));
    ShapesAreSafe(Trim(Param(cmd, "host")));
    if Asked(cmd, "port", 1, 65535).Ok? {
      ServerLetters(Trim(Param(cmd, "host")), Asked(cmd, "port", 1, 65535).value);
    }
  }

  lemma Prefixes()
    ensures Ascii("TIMER,") == TIMER + [COMMA] && Ascii("HBT,") == HBT + [COMMA]
    ensures Ascii("SERVER,1,") == SERVER + [COMMA, 0x31, COMMA] && Ascii(",0#") == [COMMA, 0x30, HASH]
  {
  }

  lemma IntervalLetters(pwd: bytes, n: nat)
    ensures IntervalText(pwd, n) ==
      (if pwd == [] then Ascii("TIMER,") else Ascii("TIMER,") + pwd + Ascii(",")) + Decimal(n) + Ascii("#")
  {
    hide Ascii, Decimal, TIMER;
    Names();
    Prefixes();
  }

  lemma HeartbeatLetters(n: nat)
    ensures HeartbeatText(n) == Ascii("HBT,") + Decimal(n) + Ascii("#")
  {
    hide Ascii, Decimal, HBT;
    Names();
    Prefixes();
  }

  lemma ServerLetters(host: bytes, n: nat)
    ensures ServerText(host, n) == Ascii("SERVER,1,") + host + Ascii(",") + Decimal(n) + Ascii(",0#")
  {
    hide Ascii, Decimal, SERVER;
    Names();
    Prefixes();
  }

  // ---- What is sent ----

  /** A number is sent exactly when it is in the range of its command. */
  lemma NumberSentIff(cmd: Command, n: nat, serial: word)
    requires Trim(cmd.raw) == [] && PasswordShape(Trim(cmd.password))
    ensures cmd.typ == SetInterval && Param(cmd, "seconds") == Decimal(n) ==>
      (CommandFrame(cmd, serial).Ok? <==> 5 <= n <= 18000)
    ensures cmd.typ == SetHeartbeat && Param(cmd, "minutes") == Decimal(n) ==>
      (CommandFrame(cmd, serial).Ok? <==> 1 <= n <= 360)
    ensures cmd.typ == SetServer && HostShape(Trim(Param(cmd, "host"))) && Param(cmd, "port") == Decimal(n) ==>
      (CommandFrame(cmd, serial).Ok? <==> 1 <= n <= 65535)
  {
    hide Trim, Atoi, Decimal, Param, CommandText, CommandFrame, Ascii, PasswordShape, HostShape;
    AtoiOfDecimal(n);
    AcceptedIff(cmd, serial);
    if cmd.typ == SetInterval {
      IntervalTexts(cmd);
    } else if cmd.typ == SetHeartbeat {
      HeartbeatTexts(cmd);
    } else if cmd.typ == SetServer {
      ServerTexts(cmd);
    }
  }

  /** An override is sent exactly when it has 1 to 200 printable characters, as it stands but for blanks around it. */
  lemma OverrideSentIff(cmd: Command, serial: word)
    requires Trim(cmd.raw) != []
    ensures CommandText(cmd) == Ok(Trim(cmd.raw))
    ensures var raw := Trim(cmd.raw);
      CommandFrame(cmd, serial).Ok? <==> |raw| <= 200 && forall i | 0 <= i < |raw| :: 32 <= raw[i] <= 126
  {
    hide Trim, BuildFrame;
    AcceptedIff(cmd, serial);
  }

  /** The frame of a command, byte by byte. */
  lemma CommandBytes(cmd: Command, serial: word)
    requires CommandFrame(cmd, serial).Ok?
    ensures CommandText(cmd).Ok?
    ensures var f, text := CommandFrame(cmd, serial).value, CommandText(cmd).value;
      var n := |text|;
      && |f| == n + 17
      && f[0] == f[1] == 0x78 && f[2] == n + 12 && f[3] == 0x80 && f[4] == n + 4
      && FourBytes(f[5], f[6], f[7], f[8]) == cmd.correlationKey
      && f[9..9 + n] == text && f[9 + n] == 0 && f[10 + n] == 2
      && f[11 + n] == serial / 256 && f[12 + n] == serial % 256
      && f[15 + n] == 0x0D && f[16 + n] == 0x0A
  {
    hide CommandText, BuildFrame, TextContent, CrcITU, FourBytes;
    var text := CommandText(cmd).value;
    var content := TextContent(cmd.correlationKey, text);
    ContentBytes(cmd.correlationKey, text);
    BuiltShape(0x80, content, serial);
    var f := BuildFrame(0x80, content, serial);
    FrameContent(f, content, |text|);
  }

  lemma FrameContent(f: bytes, c: bytes, n: nat)
    requires |c| == n + 7 && |f| >= n + 11 && f[4..11 + n] == c
    ensures f[4] == c[0] && f[5] == c[1] && f[6] == c[2] && f[7] == c[3] && f[8] == c[4]
    ensures f[9..9 + n] == c[5..5 + n] && f[9 + n] == c[5 + n] && f[10 + n] == c[6 + n]
  {
    assert c == f[4..11 + n];
    var text, inner := f[9..9 + n], c[5..5 + n];
    forall k | 0 <= k < n ensures text[k] == inner[k] {
      assert f[4..11 + n][5 + k] == f[9 + k];
    }
    assert text == inner;
  }

  lemma ContentBytes(key: dword, text: bytes)
    requires |text| <= 251
    ensures var c := TextContent(key, text);
      && |c| == |text| + 7 && c[0] == |text| + 4
      && FourBytes(c[1], c[2], c[3], c[4]) == key
      && c[5..5 + |text|] == text && c[5 + |text|] == 0 && c[6 + |text|] == 2
  {
    hide PutDword, GetDword, FourBytes;
    var c := TextContent(key, text);
    TextContentReads(key, text);
    DwordInBytes(c[1..]);
    DwordRoundTrip(key, []);
    assert PutDword(key) + [] == PutDword(key);
  }
}
