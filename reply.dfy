/**
 * The pure part of `sendReply` (index.js:81-105): header lookup, recipient
 * extraction, subject rewriting, assembly of the raw reply and its
 * transport encoding.
 */
module Reply {
  import opened Wrappers
  import opened Text
  import Base64
  import Utf8

  type MessageId = string

  /** One entry of `payload.headers` in a `format: 'metadata'` answer. */
  datatype Header = Header(name: string, value: string)

  /** `find(...).value` on `undefined` throws; the model names the header that was missing. */
  datatype ComposeError = HeaderMissing(name: string)

  /** The fixed reply text of index.js:93. */
  const ReplyBody: string := "Hi, \n\n I'm currently on vacation and will get back to you soon. \n\nBest\nVarsha"

  // ---------------------------------------------------------------------------
  // Header lookup (index.js:81-88)

  /** The value of the first header whose name is exactly `name`, if any. */
  function FindHeader(headers: seq<Header>, name: string): (r: Option<string>)
    ensures r.None? <==> forall k :: 0 <= k < |headers| ==> headers[k].name != name
    ensures r.Some? ==> exists k :: 0 <= k < |headers| && headers[k].name == name && headers[k].value == r.value
                                    && forall j :: 0 <= j < k ==> headers[j].name != name
  {
    match FindFirst(headers, (h: Header) => h.name == name)
    case None => None
    case Some(k) => Some(headers[k].value)
  }

  // ---------------------------------------------------------------------------
  // Recipient extraction: `from.match(/<(.*)>/)?.[1] || from` (index.js:91)

  /** The characters `.` does not match in a JavaScript regular expression. */
  predicate IsLineTerminator(c: char) {
    c == '\n' || c == '\r' || c == '\U{2028}' || c == '\U{2029}'
  }

  /** `<(.*)>` can match with the `<` at `i` and the `>` at `j`. */
  ghost predicate Brackets(s: string, i: int, j: int) {
    && 0 <= i < j < |s|
    && s[i] == '<' && s[j] == '>'
    && forall k :: i < k < j ==> !IsLineTerminator(s[k])
  }

  /** The match the regex engine reports: the leftmost `<`, then the last possible `>`. */
  ghost predicate IsRegexMatch(s: string, i: int, j: int) {
    && Brackets(s, i, j)
    && (forall i', j' :: i' < i ==> !Brackets(s, i', j'))
    && (forall j' :: j < j' ==> !Brackets(s, i, j'))
  }

  /** The first line terminator at or after `k`, or the end of `s`. */
  function LineEnd(s: string, k: nat): (e: nat)
    requires k <= |s|
    ensures k <= e <= |s|
    ensures e < |s| ==> IsLineTerminator(s[e])
    ensures forall m :: k <= m < e ==> !IsLineTerminator(s[m])
    decreases |s| - k
  {
    if k == |s| || IsLineTerminator(s[k]) then k else LineEnd(s, k + 1)
  }

  /** The last index in `[lo, hi)` holding `c`, if any. */
  function LastIndexOf(s: string, c: char, lo: nat, hi: nat): (r: Option<nat>)
    requires lo <= hi <= |s|
    ensures r.Some? ==> lo <= r.value < hi && s[r.value] == c
    ensures r.Some? ==> forall m :: r.value < m < hi ==> s[m] != c
    ensures r.None? ==> forall m :: lo <= m < hi ==> s[m] != c
    decreases hi
  {
    if hi == lo then None
    else if s[hi - 1] == c then Some(hi - 1)
    else LastIndexOf(s, c, lo, hi - 1)
  }

  /** With `<` at `i`, the greedy `.*` ends at the last `>` before the end of the line. */
  lemma BracketsWithinLine(s: string, i: nat, j: int)
    requires i < |s|
    ensures Brackets(s, i, j) <==> (s[i] == '<' && i + 1 <= j < LineEnd(s, i + 1) && s[j] == '>')
  {
  }

  /** The regex engine's search, trying each start position from `start` on. */
  function MatchFrom(s: string, start: nat): (r: Option<(nat, nat)>)
    requires start <= |s|
    ensures r.Some? ==> start <= r.value.0 && Brackets(s, r.value.0, r.value.1)
    ensures r.Some? ==> forall i', j' :: start <= i' < r.value.0 ==> !Brackets(s, i', j')
    ensures r.Some? ==> forall j' :: r.value.1 < j' ==> !Brackets(s, r.value.0, j')
    ensures r.None? ==> forall i', j' :: start <= i' ==> !Brackets(s, i', j')
    decreases |s| - start
  {
    if start == |s| then None
    else
      var close := LastIndexOf(s, '>', start + 1, LineEnd(s, start + 1));
      if s[start] == '<' && close.Some? then
        BracketsWithinLine(s, start, close.value);
        assert forall j' :: close.value < j' ==> !Brackets(s, start, j') by {
          forall j' | close.value < j' ensures !Brackets(s, start, j') { BracketsWithinLine(s, start, j'); }
        }
        Some((start, close.value))
      else
        assert forall j' :: !Brackets(s, start, j') by {
          forall j' ensures !Brackets(s, start, j') { BracketsWithinLine(s, start, j'); }
        }
        MatchFrom(s, start + 1)
  }

  /**
   * The reply's recipient: the text the greedy capture group takes when the
   * regex matches with a non-empty capture; otherwise `from` itself.
   */
  function Recipient(from: string): (r: string)
    ensures forall i, j :: IsRegexMatch(from, i, j) ==> r == (if i + 1 < j then from[i + 1..j] else from)
    ensures (forall i, j :: !Brackets(from, i, j)) ==> r == from
  {
    match MatchFrom(from, 0)
    case None => from
    case Some((i, j)) =>
      assert IsRegexMatch(from, i, j);
      if i + 1 < j then from[i + 1..j] else from
  }

  /** Whenever `<(.*)>` can match at all, the engine's match exists. */
  lemma RegexMatchExists(s: string, i: int, j: int)
    requires Brackets(s, i, j)
    ensures exists i', j' :: IsRegexMatch(s, i', j')
  {
    var m := MatchFrom(s, 0);
    assert m.Some?;
    assert IsRegexMatch(s, m.value.0, m.value.1);
  }

  /**
   * `name <addr>`, with no `<` in the name and no line break in the
   * address, yields the address.
   */
  lemma RecipientOfDisplayForm(name: string, addr: string)
    requires '<' !in name && |addr| > 0
    requires forall k :: 0 <= k < |addr| ==> !IsLineTerminator(addr[k])
    ensures Recipient(name + "<" + addr + ">") == addr
  {
    var s := name + "<" + addr + ">";
    forall k | |name| < k < |name| + |addr| + 1 ensures !IsLineTerminator(s[k]) {
      assert s[k] == addr[k - |name| - 1];
    }
    forall i', j' | i' < |name| ensures !Brackets(s, i', j') {
      if 0 <= i' {
        assert s[i'] == name[i'];
      }
    }
    assert IsRegexMatch(s, |name|, |name| + |addr| + 1);
    assert s[|name| + 1..|name| + |addr| + 1] == addr;
  }

  lemma RecipientOfJaneDoe()
    ensures Recipient("Jane Doe <jane@example.com>") == "jane@example.com"
  {
    var name, addr := "Jane Doe ", "jane@example.com";
    assert "Jane Doe <jane@example.com>" == name + "<" + addr + ">";
    forall k | 0 <= k < |addr| ensures !IsLineTerminator(addr[k]) {
      assert addr[k] in addr;
    }
    RecipientOfDisplayForm(name, addr);
  }

  /** A bare address has no brackets and is its own recipient. */
  lemma RecipientOfBareAddress()
    ensures Recipient("jane@example.com") == "jane@example.com"
  {
    var addr := "jane@example.com";
    forall i, j ensures !Brackets(addr, i, j) {
      if 0 <= i < |addr| {
        assert addr[i] in addr;
      }
    }
  }

  /** An empty capture is falsy, so `<>` falls back to `from` itself. */
  lemma RecipientOfEmptyBrackets()
    ensures Recipient("<>") == "<>"
  {
    assert IsRegexMatch("<>", 0, 1);
  }

  // ---------------------------------------------------------------------------
  // Subject rewriting (index.js:92)

  /** `subject.startsWith('Re:') ? subject : `Re: ${subject}``. */
  function ReplySubject(subject: string): (r: string)
    ensures StartsWith(r, "Re:")
    ensures r == subject <==> StartsWith(subject, "Re:")
    ensures |r| >= |subject| && r[|r| - |subject|..] == subject
    ensures r != subject ==> r[..|r| - |subject|] == "Re: "
  {
    if StartsWith(subject, "Re:") then subject else "Re: " + subject
  }

  /** Rewriting a rewritten subject changes nothing. */
  lemma ReplySubjectIdempotent(subject: string)
    ensures ReplySubject(ReplySubject(subject)) == ReplySubject(subject)
  {
  }

  /** A plain subject gains the prefix; a prefixed one is kept as it is. */
  lemma ReplySubjectExamples()
    ensures ReplySubject("Hello") == "Re: Hello"
    ensures ReplySubject("Re: Hello") == "Re: Hello"
    ensures ReplySubject("re: Hello") == "Re: re: Hello"
    ensures ReplySubject("Re:Hello") == "Re:Hello"
  {
    assert "Hello"[..3][0] == 'H';
    assert "re: Hello"[..3][0] == 'r';
    assert "Re: Hello"[..3] == "Re:";
    assert "Re:Hello"[..3] == "Re:";
  }

  // ---------------------------------------------------------------------------
  // The raw reply (index.js:94-102)

  /** The five header lines of the reply, in order. */
  function HeaderLines(to: string, subject: string, id: MessageId): seq<string>
  {
    ["From: me", "To: " + to, "Subject: " + subject, "In-Reply-To: " + id, "References: " + id]
  }

  /** The header lines, an empty line and the body, joined by `\n`. */
  function RawMessage(to: string, subject: string, id: MessageId, body: string): string
  {
    JoinLines(HeaderLines(to, subject, id) + ["", body])
  }

  /**
   * Read back line by line, the raw reply is the five header lines (both
   * threading headers naming the original message), an empty line, and
   * then the body, which joins back to itself.
   */
  lemma RawMessageShape(to: string, subject: string, id: MessageId, body: string)
    requires '\n' !in to && '\n' !in subject && '\n' !in id
    ensures var lines := SplitLines(RawMessage(to, subject, id, body));
      && |lines| >= 7
      && lines[..6] == ["From: me", "To: " + to, "Subject: " + subject,
                        "In-Reply-To: " + id, "References: " + id, ""]
      && JoinLines(lines[6..]) == body
  {
    var head := HeaderLines(to, subject, id) + [""];
    assert forall k :: 0 <= k < 6 ==> NoNewline(head[k]) by {
      assert '\n' !in "From: me";
      assert '\n' !in "To: " + to;
      assert '\n' !in "Subject: " + subject;
      assert '\n' !in "In-Reply-To: " + id;
      assert '\n' !in "References: " + id;
    }
    assert HeaderLines(to, subject, id) + ["", body] == head + [body];
    SplitJoinSnoc(head, body);
    var lines := SplitLines(RawMessage(to, subject, id, body));
    assert lines == head + SplitLines(body);
    assert lines[6..] == SplitLines(body);
    JoinSplit(body);
  }

  // ---------------------------------------------------------------------------
  // The whole derivation (index.js:81-105)

  /**
   * The encoded reply to message `id` given its metadata headers: an error
   * naming `Subject` or `From` when that header is absent (Subject is looked
   * up first), otherwise the unpadded base64url encoding of the UTF-8 bytes
   * of the raw reply.
   */
  function ComposeReply(headers: seq<Header>, id: MessageId): (r: Result<string, ComposeError>)
    ensures FindHeader(headers, "Subject").None? ==> r == Err(HeaderMissing("Subject"))
    ensures FindHeader(headers, "Subject").Some? && FindHeader(headers, "From").None?
            ==> r == Err(HeaderMissing("From"))
    ensures r.Ok? <==> FindHeader(headers, "Subject").Some? && FindHeader(headers, "From").Some?
    ensures r.Ok? ==> r.value == Base64.EncodeUrl(Utf8.Encode(RawMessage(
                        Recipient(FindHeader(headers, "From").value),
                        ReplySubject(FindHeader(headers, "Subject").value), id, ReplyBody)))
  {
    match FindHeader(headers, "Subject")
    case None => Err(HeaderMissing("Subject"))
    case Some(subject) =>
      match FindHeader(headers, "From")
      case None => Err(HeaderMissing("From"))
      case Some(from) =>
        var raw := RawMessage(Recipient(from), ReplySubject(subject), id, ReplyBody);
        Base64.TransportEncodeIsBase64Url(Utf8.Encode(raw));
        Ok(Base64.TransportEncode(Utf8.Encode(raw)))
  }

  /**
   * What the provider receives decodes to exactly the UTF-8 bytes of the raw
   * reply built from the message's headers.
   */
  lemma ComposeReplyDecodes(headers: seq<Header>, id: MessageId)
    requires ComposeReply(headers, id).Ok?
    ensures Base64.DecodeUrl(ComposeReply(headers, id).value)
            == Some(Utf8.Encode(RawMessage(Recipient(FindHeader(headers, "From").value),
                                           ReplySubject(FindHeader(headers, "Subject").value), id, ReplyBody)))
  {
    var raw := RawMessage(Recipient(FindHeader(headers, "From").value),
                          ReplySubject(FindHeader(headers, "Subject").value), id, ReplyBody);
    Base64.DecodeEncodeUrl(Utf8.Encode(raw));
  }
}
