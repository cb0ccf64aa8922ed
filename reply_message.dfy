/** `reply_message` (third_party/reply_message.py): formats a text with a
    severity marker and answers with it, split into messages of at most
    `MAX_MESSAGE_LENGTH` characters. The sends are returned as a list
    instead of being passed to Telegram. */
module ReplyMessage {
  import Wrappers

  /** `config.MAX_MESSAGE_LENGTH`: Telegram's limit on one message. */
  const MaxMessageLength: nat := 4096

  /** `SeverityEnum`: the template the text is formatted into. */
  datatype Severity = None | Info | Error

  /** One `message.reply_text(...)` call. */
  datatype Reply<M> = Reply(text: string, markup: Wrappers.Option<M>, quote: bool)

  /** The part of a severity's template before `{text}`: nothing, the
      information sign with its emoji variation selector and a space, or the
      warning sign and a space. */
  function Marker(severity: Severity): string {
    match severity
    case None => ""
    case Info => "\U{2139}\U{FE0F} "
    case Error => "\U{26A0} "
  }

  /** `severity.value.format(text=text)`. */
  function Formatted(severity: Severity, text: string): string {
    Marker(severity) + text
  }

  /** The texts of the sends, concatenated in order. */
  function Joined<M>(sends: seq<Reply<M>>): string {
    if sends == [] then [] else sends[0].text + Joined(sends[1..])
  }

  /** The formatted text still holds the original text after the marker, so
      formatting loses nothing; `NONE` leaves the text as it is. */
  lemma FormattedKeepsText(severity: Severity, text: string)
    ensures |Formatted(severity, text)| == |Marker(severity)| + |text|
    ensures Formatted(severity, text)[|Marker(severity)|..] == text
    ensures severity == None ==> Formatted(severity, text) == text
  {
    assert Marker(None) == [];
  }

  /** The markers of the three severities, character by character. */
  lemma Markers()
    ensures Marker(Info) == ['\U{2139}', '\U{FE0F}', ' ']
    ensures Marker(Error) == ['\U{26A0}', ' ']
    ensures |Marker(Info)| == 3 && |Marker(Error)| == 2
  {
  }

  lemma {:induction false} JoinedAppend<M>(sends: seq<Reply<M>>, r: Reply<M>)
    ensures Joined(sends + [r]) == Joined(sends) + r.text
    decreases |sends|
  {
    if sends == [] {
      assert sends + [r] == [r];
      assert Joined([r]) == r.text + Joined([r][1..]);
    } else {
      assert (sends + [r])[1..] == sends[1..] + [r];
      JoinedAppend(sends[1..], r);
    }
  }

  /** `k` pieces of `MaxMessageLength` cover `len` characters, and one fewer
      would not: `k` is the rounded-up quotient. */
  lemma CeilingCount(k: nat, len: nat)
    requires len <= k * 4096
    requires k == 0 || (k - 1) * 4096 < len
    ensures k == (len + MaxMessageLength - 1) / MaxMessageLength
  {
  }

  /** What the sending loop has achieved once `n` has reached a multiple of
      the limit: the sends so far spell `formatted` up to `n`, each is full,
      except that the final one may be short once the text is used up. */
  ghost predicate Progress<M>(sends: seq<Reply<M>>, formatted: string, n: nat, markup: Wrappers.Option<M>, quote: bool) {
    && n == |sends| * 4096
    && n < |formatted| + MaxMessageLength
    && Joined(sends) == formatted[..if n <= |formatted| then n else |formatted|]
    && (forall i :: 0 <= i < |sends| ==> 1 <= |sends[i].text| <= MaxMessageLength)
    && (forall i :: 0 <= i < |sends| - 1 ==> |sends[i].text| == MaxMessageLength)
    && (n < |formatted| ==> forall i :: 0 <= i < |sends| ==> |sends[i].text| == MaxMessageLength)
    && (forall i :: 0 <= i < |sends| ==> sends[i].markup == markup && sends[i].quote == quote)
  }

  /** One pass of the loop keeps `Progress`. */
  lemma ProgressStep<M>(sends: seq<Reply<M>>, formatted: string, n: nat, markup: Wrappers.Option<M>, quote: bool)
    requires Progress(sends, formatted, n, markup, quote) && n < |formatted|
    ensures var end := if n + MaxMessageLength <= |formatted| then n + MaxMessageLength else |formatted|;
      Progress(sends + [Reply(formatted[n..end], markup, quote)], formatted, n + MaxMessageLength, markup, quote)
  {
    var end := if n + MaxMessageLength <= |formatted| then n + MaxMessageLength else |formatted|;
    var r := Reply(formatted[n..end], markup, quote);
    JoinedAppend(sends, r);
    assert formatted[..n] + r.text == formatted[..end];
  }

  /** The loop `for n in range(0, len(text), MAX_MESSAGE_LENGTH)` that sends
      `text[n:n + MAX_MESSAGE_LENGTH]` each time, with the same markup and
      quote flag. The sends put back together give the formatted text; each
      is non-empty and within the limit, all but the last are full, and there
      are as many as the limit fits into the text, rounded up, so an empty
      text sends nothing. */
  method ReplyMessage<M>(text: string, severity: Severity, markup: Wrappers.Option<M>, quote: bool)
    returns (sends: seq<Reply<M>>)
    ensures Joined(sends) == Formatted(severity, text)
    ensures forall i :: 0 <= i < |sends| ==> 1 <= |sends[i].text| <= MaxMessageLength
    ensures forall i :: 0 <= i < |sends| - 1 ==> |sends[i].text| == MaxMessageLength
    ensures |sends| == (|Formatted(severity, text)| + MaxMessageLength - 1) / MaxMessageLength
    ensures forall i :: 0 <= i < |sends| ==> sends[i].markup == markup && sends[i].quote == quote
  {
    var formatted := Formatted(severity, text);
    sends := [];
    var n := 0;
    while n < |formatted|
      invariant Progress(sends, formatted, n, markup, quote)
      decreases |formatted| - n
    {
      var end := if n + MaxMessageLength <= |formatted| then n + MaxMessageLength else |formatted|;
      ProgressStep(sends, formatted, n, markup, quote);
      sends := sends + [Reply(formatted[n..end], markup, quote)];
      n := n + MaxMessageLength;
    }
    assert Joined(sends) == formatted[..|formatted|] == formatted;
    CeilingCount(|sends|, |formatted|);
  }
}
