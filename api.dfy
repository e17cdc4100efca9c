/** The string handling of the RCON wrapper in `src/lib/palworld/api.ts`: the NUL stripping of
    `send`, and the version, name and roster that `serverInfo` extracts from the `Info` and
    `ShowPlayers` responses. The RCON client itself is not part of this model: a response is
    a parameter, `None` when the client's `sendCommand` rejects. */
module Api {
  import opened Wrappers
  import opened Seqs
  import opened JsText
  import opened Roster

  /** What makes `serverInfo` reject. */
  datatype InfoError =
    | TransportFailure   // `sendCommand` rejected
    | NoOpenBracket      // `parts[1]` is undefined: the Info text has no `[`
    | NoCloseBracket     // `...split("]")[1]` is undefined: no `]` before the next `[`

  datatype ServerInfo = ServerInfo(players: seq<Record>, serverName: string, serverVersion: string)

  /** The characters of the trailing run that `.replace(/[\n\u0000]+$/, "")` removes. */
  const NameTrailer: set<char> := {'\n', NUL}

  /** `send`: the response with every NUL deleted and every other character kept in order. */
  function Send(response: string): (r: string)
    ensures NUL !in r
    ensures IsSubsequence(r, response)
    ensures forall c :: c != NUL ==> Count(r, c) == Count(response, c)
  {
    Remove(response, NUL)
  }

  /** Sending works line by line and piece by piece, and a clean response comes back as it is;
      in particular a second `Send` changes nothing. */
  lemma SendPiecewise(a: string, b: string)
    ensures Send(a + b) == Send(a) + Send(b)
    ensures NUL !in a ==> Send(a) == a
    ensures Send(Send(a)) == Send(a)
  {
    RemoveAppend(a, b, NUL);
    RemoveAppend(Send(a), [], NUL);
  }

  /** The version and the name in the `Info` response (`serverInfo`, before the roster). */
  function VersionAndName(message: string): (r: Result<(string, string), InfoError>)
    ensures r == Err(NoOpenBracket) <==> '[' !in message
    ensures r != Err(TransportFailure)
  {
    var parts := Split(message, '[');
    SplitCount(message, '[');
    if |parts| < 2 then Err(NoOpenBracket)
    else
      var segments := Split(parts[1], ']');
      if |segments| < 2 then Err(NoCloseBracket)
      else Ok((segments[0], Trim(StripEnd(segments[1], NameTrailer))))
  }

  /** `serverInfo`: send `Info`, extract version and name, send `ShowPlayers`, parse and
      filter the roster. A rejection stops at the first failing step. */
  function ServerInfoOf(info: Option<string>, roster: Option<string>): (r: Result<ServerInfo, InfoError>)
    ensures info.None? ==> r == Err(TransportFailure)
    ensures r.Ok? <==> info.Some? && VersionAndName(info.value).Ok? && roster.Some?
    ensures r.Ok? ==> ParsePlayerInfo(roster) == Ok(r.value.players)
    ensures r.Ok? ==> VersionAndName(info.value) == Ok((r.value.serverVersion, r.value.serverName))
  {
    match info
    case None => Err(TransportFailure)
    case Some(message) =>
      match VersionAndName(message)
      case Err(e) => Err(e)
      case Ok((version, name)) =>
        match roster
        case None => Err(TransportFailure)
        case Some(text) =>
          Ok(ServerInfo(KeepPlayers(ParseCSV(Remove(text, NUL))), name, version))
  }

  /** The first piece of a split runs up to the first separator. */
  lemma SplitFirstPiece(a: string, b: string, c: char)
    requires c !in a
    ensures Split(a + b, c)[0] == a + Split(b, c)[0]
  {
    if c in b {
      var k := FirstIndex(b, c);
      assert b == b[..k] + ([c] + b[k + 1..]);
      assert a + b == (a + b[..k]) + ([c] + b[k + 1..]);
      SplitAt(a + b[..k], c, b[k + 1..]);
      SplitAt(b[..k], c, b[k + 1..]);
    } else {
      assert c !in a + b;
    }
  }

  /** The piece after the first `[` runs up to the next `[`. */
  lemma SecondPiece(pre: string, x: string)
    requires '[' !in pre
    ensures |Split(pre + "[" + x, '[')| >= 2
    ensures Split(pre + "[" + x, '[')[1] == Split(x, '[')[0]
  {
    SplitAt(pre, '[', x);
  }

  /** What lies between the first `[` and the next `[` of well-formed `Info` text: the version,
      `]`, the raw name, then nothing or a `]` and more. */
  lemma BracketSegment(head: string, post: string) returns (w: string)
    requires '[' !in head
    requires post == [] || post[0] == '[' || post[0] == ']'
    ensures w == [] || w[0] == ']'
    ensures Split(head + post, '[')[0] == head + w
  {
    if post == [] {
      w := [];
      assert head + post == head + w;
    } else if post[0] == '[' {
      w := [];
      SegmentBeforeOpen(head, post);
    } else {
      w := [']'] + Split(post[1..], '[')[0];
      SegmentBeforeClose(head, post);
    }
  }

  lemma SegmentBeforeOpen(head: string, post: string)
    requires '[' !in head
    requires post != [] && post[0] == '['
    ensures Split(head + post, '[')[0] == head
  {
    assert post == ['['] + post[1..];
    SplitAt(head, '[', post[1..]);
  }

  lemma SegmentBeforeClose(head: string, post: string)
    requires '[' !in head
    requires post != [] && post[0] == ']'
    ensures Split(head + post, '[')[0] == head + [']'] + Split(post[1..], '[')[0]
  {
    assert head + post == (head + [']']) + post[1..];
    SplitFirstPiece(head + [']'], post[1..], '[');
  }

  /** Splitting that segment at `]` gives the version, then the raw name. */
  lemma SegmentPieces(version: string, raw: string, w: string)
    requires ']' !in version && ']' !in raw
    requires w == [] || w[0] == ']'
    ensures |Split(version + "]" + raw + w, ']')| >= 2
    ensures Split(version + "]" + raw + w, ']')[0] == version
    ensures Split(version + "]" + raw + w, ']')[1] == raw
  {
    assert version + "]" + raw + w == version + ([']'] + (raw + w));
    SplitAt(version, ']', raw + w);
    RawPiece(raw, w);
  }

  /** The raw name runs up to the next `]`. */
  lemma RawPiece(raw: string, w: string)
    requires ']' !in raw
    requires w == [] || w[0] == ']'
    ensures Split(raw + w, ']')[0] == raw
  {
    if w == [] {
      assert raw + w == raw;
    } else {
      assert raw + w == raw + ([']'] + w[1..]) by { assert w == [']'] + w[1..]; }
      SplitAt(raw, ']', w[1..]);
    }
  }

  /** Well-formed `Info` text: some text without `[`, then `[version]`, then the raw name, up
      to the next `[` or `]` or the end. The version is what lies between the first `[` and
      the next `]`; the name is the raw name without its trailing run of line feeds and NULs,
      then trimmed. */
  lemma VersionAndNameOf(pre: string, version: string, raw: string, post: string)
    requires '[' !in pre && '[' !in version && ']' !in version && '[' !in raw && ']' !in raw
    requires post == [] || post[0] == '[' || post[0] == ']'
    ensures VersionAndName(pre + "[" + (version + "]" + raw + post))
         == Ok((version, Trim(StripEnd(raw, NameTrailer))))
  {
    var w := BracketSegment(version + "]" + raw, post);
    SecondPiece(pre, version + "]" + raw + post);
    SegmentPieces(version, raw, w);
  }

  /** With an opening `[`, the `Info` text is rejected exactly when no `]` comes before the
      next `[`. */
  lemma NoCloseBracketOf(pre: string, segment: string, post: string)
    requires '[' !in pre && '[' !in segment
    requires post == [] || post[0] == '['
    ensures VersionAndName(pre + "[" + (segment + post)) == Err(NoCloseBracket) <==> ']' !in segment
  {
    SecondPiece(pre, segment + post);
    if post == [] {
      assert segment + post == segment;
    } else {
      SegmentBeforeOpen(segment, post);
    }
    SplitCount(segment, ']');
  }
}
