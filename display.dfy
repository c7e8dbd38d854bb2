/** The two texts the counter program draws on the OLED display (through
    `escrever_texto`), the 20-byte buffer they are formatted into, and a reader
    that recovers the displayed numbers from a frame. */
module Display {
  import opened Decimal

  /** Size of `string_contador`, the buffer `sprintf` formats every frame into. */
  const CONTADOR_BUFFER_SIZE: nat := 20

  /** Shown once at start-up, before any button is pressed. */
  const WELCOME: string := "Pressione A para comecar"

  /** `"T:%d C:%d"`: the remaining seconds and the clicks counted so far. */
  function CountdownFrame(value: int, clicks: int): string {
    "T:" + FormatInt(value) + " C:" + FormatInt(clicks)
  }

  /** `"ZERO! C:%d"`: shown when the countdown has run out. */
  function ZeroFrame(clicks: int): string {
    "ZERO! C:" + FormatInt(clicks)
  }

  /** What a reader of the display learns from one frame. */
  datatype Reading = Countdown(value: int, clicks: int) | Expired(clicks: int)

  /** Index of the first space in `s`, or `|s|` when there is none. */
  function FirstSpace(s: string): (k: nat)
    ensures k <= |s|
    ensures k < |s| ==> s[k] == ' '
    ensures forall j :: 0 <= j < k ==> s[j] != ' '
  {
    if |s| == 0 || s[0] == ' ' then 0 else 1 + FirstSpace(s[1..])
  }

  /** Parses a displayed frame back into the numbers it shows. */
  function ReadFrame(s: string): (r: Option<Reading>)
    ensures r.Some? && r.value.Countdown? ==> |s| >= 2 && s[..2] == "T:"
    ensures r.Some? && r.value.Expired? ==> |s| >= 8 && s[..8] == "ZERO! C:"
  {
    if |s| >= 8 && s[..8] == "ZERO! C:" then
      match ParseInt(s[8..])
      case None => None
      case Some(c) => Some(Expired(c))
    else if |s| >= 2 && s[..2] == "T:" then
      var body := s[2..];
      var k := FirstSpace(body);
      if k + 3 <= |body| && body[k..k + 3] == " C:" then
        match (ParseInt(body[..k]), ParseInt(body[k + 3..]))
        case (Some(v), Some(c)) => Some(Countdown(v, c))
        case _ => None
      else None
    else None
  }

  lemma CountdownPrefix(s: string, rest: string)
    requires s == "T:" + rest
    ensures |s| >= 2 && s[..2] == "T:" && s[2..] == rest
    ensures !(|s| >= 8 && s[..8] == "ZERO! C:")
  {
    assert s[0] == 'T' && s[1] == ':';
    if |s| >= 8 {
      assert s[..8][0] == 'T';
    }
  }

  /** A space-free number, ` C:` and a second number split at that space. */
  lemma SplitAtSeparator(body: string, dv: string, dc: string)
    requires body == dv + (" C:" + dc)
    requires forall j :: 0 <= j < |dv| ==> dv[j] != ' '
    ensures FirstSpace(body) == |dv| && |dv| + 3 <= |body|
    ensures body[|dv|..|dv| + 3] == " C:" && body[..|dv|] == dv && body[|dv| + 3..] == dc
  {
    assert body[|dv|] == ' ';
    assert forall j :: 0 <= j < |dv| ==> body[j] == dv[j];
  }

  /** A text made of `T:`, a space-free first number, ` C:` and a second
      number reads as a countdown frame showing those numbers. */
  lemma ReadCountdownShape(s: string, dv: string, dc: string, value: int, clicks: int)
    requires s == "T:" + dv + " C:" + dc
    requires forall j :: 0 <= j < |dv| ==> dv[j] != ' '
    requires ParseInt(dv) == Some(value) && ParseInt(dc) == Some(clicks)
    ensures ReadFrame(s) == Some(Countdown(value, clicks))
  {
    CountdownPrefix(s, dv + (" C:" + dc));
    SplitAtSeparator(s[2..], dv, dc);
  }

  /** Reading a countdown frame gives back the value and the click count drawn. */
  lemma ReadCountdownFrame(value: int, clicks: int)
    ensures ReadFrame(CountdownFrame(value, clicks)) == Some(Countdown(value, clicks))
  {
    ParseFormatInt(value);
    ParseFormatInt(clicks);
    ReadCountdownShape(CountdownFrame(value, clicks), FormatInt(value), FormatInt(clicks),
                       value, clicks);
  }

  /** Reading the expiry frame gives back the click count drawn. */
  lemma ReadZeroFrame(clicks: int)
    ensures ReadFrame(ZeroFrame(clicks)) == Some(Expired(clicks))
  {
    var s := ZeroFrame(clicks);
    assert s[..8] == "ZERO! C:";
    assert s[8..] == FormatInt(clicks);
    ParseFormatInt(clicks);
  }

  /** Different displayed states never produce the same frame. */
  lemma FramesAreDistinct(v1: int, c1: int, v2: int, c2: int, z: int)
    ensures CountdownFrame(v1, c1) == CountdownFrame(v2, c2) ==> v1 == v2 && c1 == c2
    ensures ZeroFrame(c1) == ZeroFrame(c2) ==> c1 == c2
    ensures CountdownFrame(v1, c1) != ZeroFrame(z)
  {
    ReadCountdownFrame(v1, c1);
    ReadCountdownFrame(v2, c2);
    ReadZeroFrame(c1);
    ReadZeroFrame(c2);
    ReadZeroFrame(z);
  }

  /** `sprintf(string_contador, "T:%d C:%d", ...)` never overflows the buffer:
      with its terminating NUL the text fits for every 32-bit `countdown_value`
      and every `uint8_t` click count. */
  lemma CountdownFrameFitsBuffer(value: int, clicks: int)
    requires -0x8000_0000 <= value < 0x8000_0000
    requires 0 <= clicks < 256
    ensures |CountdownFrame(value, clicks)| + 1 <= CONTADOR_BUFFER_SIZE
  {
    FormatInt32Length(value);
    FormatUint8Length(clicks);
  }

  /** `sprintf(string_contador, "ZERO! C:%d", ...)` never overflows the buffer. */
  lemma ZeroFrameFitsBuffer(clicks: int)
    requires 0 <= clicks < 256
    ensures |ZeroFrame(clicks)| + 1 <= CONTADOR_BUFFER_SIZE
  {
    FormatUint8Length(clicks);
  }
}
