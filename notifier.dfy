/**
 * Telegram recipients and delivery: parsing the comma-separated chat-ID
 * setting, and the send loop that tries every recipient in turn.
 */
module Notifier {
  import opened Wrappers
  import opened Text

  /** What one piece of the setting contributes: its stripped text, unless
      nothing is left after stripping. */
  function KeepPiece(piece: string): (ids: seq<string>)
    ensures |ids| <= 1
  {
    var t := Strip(piece);
    if t != [] then [t] else []
  }

  /** The comprehension over the pieces of the setting, in order. */
  function StrippedPieces(pieces: seq<string>): (ids: seq<string>)
    ensures |ids| <= |pieces|
  {
    if pieces == [] then [] else KeepPiece(pieces[0]) + StrippedPieces(pieces[1..])
  }

  lemma {:induction false} StrippedPiecesConcat(a: seq<string>, b: seq<string>)
    ensures StrippedPieces(a + b) == StrippedPieces(a) + StrippedPieces(b)
    decreases |a|
  {
    if a != [] {
      assert (a + b)[0] == a[0];
      assert (a + b)[1..] == a[1..] + b;
      StrippedPiecesConcat(a[1..], b);
      var h := KeepPiece(a[0]);
      assert h + (StrippedPieces(a[1..]) + StrippedPieces(b))
          == (h + StrippedPieces(a[1..])) + StrippedPieces(b);
    } else {
      assert a + b == b;
    }
  }

  /** The recipient list read from `TELEGRAM_CHAT_IDS` (an unset variable
      reads as the empty string). */
  function ParseChatIds(raw: string): (ids: seq<string>)
    ensures |ids| <= |Split(raw, ',')|
    ensures forall id | id in ids :: id != [] && IsStripped(id) && ',' !in id
  {
    var pieces := Split(raw, ',');
    SplitPiecesFree(raw, ',');
    StrippedPiecesValid(pieces);
    StrippedPieces(pieces)
  }

  /** Every kept ID is non-empty and stripped, whatever the pieces, and
      holds no comma when no piece did. */
  lemma {:induction false} StrippedPiecesValid(pieces: seq<string>)
    ensures forall id | id in StrippedPieces(pieces) :: id != [] && IsStripped(id)
    ensures (forall p | p in pieces :: ',' !in p) ==>
              forall id | id in StrippedPieces(pieces) :: ',' !in id
    decreases |pieces|
  {
    if pieces != [] {
      var h, rest := KeepPiece(pieces[0]), StrippedPieces(pieces[1..]);
      StrippedPiecesValid(pieces[1..]);
      assert forall id | id in h :: id == Strip(pieces[0]) && id != [];
      assert forall id | id in h + rest :: id in h || id in rest;
    }
    if forall p | p in pieces :: ',' !in p {
      StrippedPiecesCommaFree(pieces);
    }
  }

  lemma {:induction false} StrippedPiecesCommaFree(pieces: seq<string>)
    requires forall p | p in pieces :: ',' !in p
    ensures forall id | id in StrippedPieces(pieces) :: ',' !in id
    decreases |pieces|
  {
    if pieces != [] {
      StripChars(pieces[0], ',');
      assert forall id | id in KeepPiece(pieces[0]) :: id == Strip(pieces[0]);
      assert forall p | p in pieces[1..] :: ',' !in p;
      StrippedPiecesCommaFree(pieces[1..]);
    }
  }

  /** The IDs keep the order of the pieces: the IDs of `a,b` are those of `a`
      followed by those of `b`. */
  lemma ParseChatIdsConcat(a: string, b: string)
    ensures ParseChatIds(a + [','] + b) == ParseChatIds(a) + ParseChatIds(b)
  {
    SplitConcat(a, b, ',');
    StrippedPiecesConcat(Split(a, ','), Split(b, ','));
  }

  /** A single piece yields its stripped text, or nothing when it is blank. */
  lemma ParseChatIdsPiece(p: string)
    requires ',' !in p
    ensures ParseChatIds(p) == if AllSpace(p) then [] else [Strip(p)]
  {
    SplitNoSep(p, ',');
    StripEmptyIff(p);
  }

  predicate BlankSetting(raw: string) {
    forall k | 0 <= k < |raw| :: raw[k] == ',' || IsSpace(raw[k])
  }

  /** No recipient is configured exactly when the setting holds nothing but
      commas and whitespace (in particular when it is empty). */
  lemma ParseChatIdsEmptyIff(raw: string)
    ensures ParseChatIds(raw) == [] <==> BlankSetting(raw)
  {
    StrippedPiecesEmptyIff(Split(raw, ','));
    SplitBlankIff(raw);
  }

  lemma KeepPieceEmptyIff(piece: string)
    ensures KeepPiece(piece) == [] <==> AllSpace(piece)
  {
    StripEmptyIff(piece);
  }

  lemma {:induction false} StrippedPiecesEmptyIff(pieces: seq<string>)
    ensures StrippedPieces(pieces) == [] <==> AllBlank(pieces)
    decreases |pieces|
  {
    if pieces != [] {
      var h, rest := KeepPiece(pieces[0]), StrippedPieces(pieces[1..]);
      assert |StrippedPieces(pieces)| == |h| + |rest|;
      KeepPieceEmptyIff(pieces[0]);
      StrippedPiecesEmptyIff(pieces[1..]);
      AllBlankUncons(pieces);
    }
  }

  lemma BlankSettingCons(raw: string)
    requires raw != []
    ensures BlankSetting(raw) <==> (raw[0] == ',' || IsSpace(raw[0])) && BlankSetting(raw[1..])
  {
    assert forall k | 0 <= k < |raw| - 1 :: raw[1..][k] == raw[k + 1];
  }

  lemma {:induction false} SplitBlankIff(raw: string)
    ensures AllBlank(Split(raw, ',')) <==> BlankSetting(raw)
    decreases |raw|
  {
    if raw != [] {
      var rest := Split(raw[1..], ',');
      SplitBlankIff(raw[1..]);
      BlankSettingCons(raw);
      if raw[0] == ',' {
        AllBlankCons("", rest);
      } else {
        AllBlankCons([raw[0]] + rest[0], rest[1..]);
        AllSpaceCons(raw[0], rest[0]);
        AllBlankCons(rest[0], rest[1..]);
        assert rest == [rest[0]] + rest[1..];
      }
    }
  }

  /** One `send_message` call and whether it went through. */
  datatype Attempt = Attempt(chatId: string, delivered: bool)

  /** What `send_telegram_message` does with a message: print it locally when
      no bot exists, otherwise the attempts made, in the order made. */
  datatype Delivery = Console(message: string) | Sent(attempts: seq<Attempt>)

  /** The bot is created only with a non-empty token and at least one recipient. */
  predicate BotConfigured(token: Option<string>, chatIds: seq<string>) {
    token.Some? && token.value != [] && chatIds != []
  }

  /** Sends `message` to every recipient. `outcomes` stands for the
      messaging service: `outcomes[k]` says whether the `k`-th send call goes
      through, each call on its own, so a repeated ID may fail once and
      succeed later. A failure is logged and the loop goes on with the next
      recipient. */
  method SendTelegramMessage(token: Option<string>, chatIds: seq<string>, message: string,
                             outcomes: seq<bool>) returns (d: Delivery)
    requires |outcomes| == |chatIds|
    ensures !BotConfigured(token, chatIds) <==> d == Console(message)
    ensures BotConfigured(token, chatIds) ==>
              d.Sent? && |d.attempts| == |chatIds| &&
              forall k | 0 <= k < |chatIds| :: d.attempts[k] == Attempt(chatIds[k], outcomes[k])
  {
    if !BotConfigured(token, chatIds) {
      return Console(message);
    }
    var attempts: seq<Attempt> := [];
    for k := 0 to |chatIds|
      invariant |attempts| == k
      invariant forall j | 0 <= j < k :: attempts[j] == Attempt(chatIds[j], outcomes[j])
    {
      var ok := outcomes[k];
      attempts := attempts + [Attempt(chatIds[k], ok)];
    }
    d := Sent(attempts);
  }
}
