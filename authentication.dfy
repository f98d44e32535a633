/**
 * Bearer-token authentication: extracting the raw token from the
 * Authorization header, and resolving a decoded token to an active user.
 * Signature and expiry checking is a parameter (`decode`).
 */
module Authentication {

  import opened Common
  import opened AccountModels

  /** An octet of the header, which is handled as ISO-8859-1 bytes. */
  type byte = b: int | 0 <= b < 256

  /** `bytes.split()` separators: space, and tab through carriage return. */
  predicate IsWhitespace(b: byte) {
    b == 32 || 9 <= b <= 13
  }

  predicate NoWhitespace(s: seq<byte>) {
    forall i :: 0 <= i < |s| ==> !IsWhitespace(s[i])
  }

  predicate IsBlank(s: seq<byte>) {
    forall i :: 0 <= i < |s| ==> IsWhitespace(s[i])
  }

  /** A part of a split header: non-empty, without whitespace. */
  predicate IsWord(s: seq<byte>) {
    s != [] && NoWhitespace(s)
  }

  /** The header with every whitespace byte taken out. */
  function NonWhitespace(s: seq<byte>): seq<byte>
    decreases |s|
  {
    if s == [] then [] else (if IsWhitespace(s[0]) then [] else [s[0]]) + NonWhitespace(s[1..])
  }

  function Concat(parts: seq<seq<byte>>): seq<byte>
    decreases |parts|
  {
    if parts == [] then [] else parts[0] + Concat(parts[1..])
  }

  predicate AreWords(parts: seq<seq<byte>>) {
    forall i :: 0 <= i < |parts| ==> IsWord(parts[i])
  }

  /** Separators between parts: each a non-empty run of whitespace. */
  predicate AreGaps(gaps: seq<seq<byte>>) {
    forall i :: 0 <= i < |gaps| ==> gaps[i] != [] && IsBlank(gaps[i])
  }

  /** One separator between each two neighbouring parts. */
  predicate GapCount(parts: seq<seq<byte>>, gaps: seq<seq<byte>>) {
    |gaps| == if |parts| == 0 then 0 else |parts| - 1
  }

  /** `parts[0] + gaps[0] + parts[1] + ... + parts[n-1]`. */
  function Interleave(parts: seq<seq<byte>>, gaps: seq<seq<byte>>): seq<byte>
    requires GapCount(parts, gaps)
    decreases |parts|
  {
    if |parts| == 0 then []
    else if |parts| == 1 then parts[0]
    else parts[0] + gaps[0] + Interleave(parts[1..], gaps[1..])
  }

  /**
   * A header laid out as optional leading whitespace, words separated by
   * runs of whitespace, and optional trailing whitespace. Every header
   * has this form.
   */
  predicate IsLayout(lead: seq<byte>, parts: seq<seq<byte>>, gaps: seq<seq<byte>>, trail: seq<byte>) {
    IsBlank(lead) && IsBlank(trail) && AreWords(parts) && AreGaps(gaps) && GapCount(parts, gaps)
  }

  function Layout(lead: seq<byte>, parts: seq<seq<byte>>, gaps: seq<seq<byte>>, trail: seq<byte>): seq<byte>
    requires GapCount(parts, gaps)
  {
    lead + Interleave(parts, gaps) + trail
  }

  /**
   * Splitting `s` when the bytes of `word` have already been read as the
   * start of the current part.
   */
  function SplitFrom(s: seq<byte>, word: seq<byte>): (parts: seq<seq<byte>>)
    requires NoWhitespace(word)
    ensures forall i :: 0 <= i < |parts| ==> IsWord(parts[i])
    ensures Concat(parts) == word + NonWhitespace(s)
    decreases |s|
  {
    if s == [] then
      (if word == [] then [] else [word])
    else if IsWhitespace(s[0]) then
      (if word == [] then SplitFrom(s[1..], []) else [word] + SplitFrom(s[1..], []))
    else
      assert word + [s[0]] + NonWhitespace(s[1..]) == word + NonWhitespace(s);
      SplitFrom(s[1..], word + [s[0]])
  }

  /**
   * `bytes.split()` with no separator: the maximal runs of non-whitespace
   * bytes, in order. Nothing but whitespace is lost.
   */
  function Split(s: seq<byte>): (parts: seq<seq<byte>>)
    ensures forall i :: 0 <= i < |parts| ==> IsWord(parts[i])
    ensures Concat(parts) == NonWhitespace(s)
  {
    SplitFrom(s, [])
  }

  lemma {:induction false} NonWhitespaceOfBlank(s: seq<byte>)
    ensures NonWhitespace(s) == [] <==> IsBlank(s)
    decreases |s|
  {
    if s != [] {
      NonWhitespaceOfBlank(s[1..]);
      if IsBlank(s[1..]) && IsWhitespace(s[0]) {
        assert IsBlank(s) by {
          forall i | 0 <= i < |s| ensures IsWhitespace(s[i]) {
            if i > 0 { assert s[i] == s[1..][i - 1]; }
          }
        }
      }
      if IsBlank(s) {
        assert IsBlank(s[1..]) by {
          forall i | 0 <= i < |s[1..]| ensures IsWhitespace(s[1..][i]) {
            assert s[1..][i] == s[i + 1];
          }
        }
      }
    }
  }

  /** A header splits into no parts exactly when it is all whitespace (or empty). */
  lemma SplitEmptyIffBlank(s: seq<byte>)
    ensures Split(s) == [] <==> IsBlank(s)
  {
    NonWhitespaceOfBlank(s);
    var parts := Split(s);
    if parts != [] {
      assert IsWord(parts[0]);
      assert |Concat(parts)| >= |parts[0]| > 0;
    }
  }

  lemma {:induction false} SplitFromWord(w: seq<byte>, rest: seq<byte>, word: seq<byte>)
    requires NoWhitespace(w) && NoWhitespace(word)
    ensures NoWhitespace(word + w)
    ensures SplitFrom(w + rest, word) == SplitFrom(rest, word + w)
    decreases |w|
  {
    if w != [] {
      assert (w + rest)[0] == w[0] && (w + rest)[1..] == w[1..] + rest;
      assert word + w == (word + [w[0]]) + w[1..];
      SplitFromWord(w[1..], rest, word + [w[0]]);
    } else {
      assert w + rest == rest && word + w == word;
    }
  }

  lemma BlankTail(ws: seq<byte>)
    requires IsBlank(ws) && ws != []
    ensures IsBlank(ws[1..])
  {
    forall i | 0 <= i < |ws[1..]| ensures IsWhitespace(ws[1..][i]) {
      assert ws[1..][i] == ws[i + 1];
    }
  }

  /** Whitespace before a part is skipped. */
  lemma {:induction false} SplitFromBlank(ws: seq<byte>, rest: seq<byte>)
    requires IsBlank(ws)
    ensures SplitFrom(ws + rest, []) == SplitFrom(rest, [])
    decreases |ws|
  {
    if ws != [] {
      assert (ws + rest)[0] == ws[0] && (ws + rest)[1..] == ws[1..] + rest;
      BlankTail(ws);
      SplitFromBlank(ws[1..], rest);
    } else {
      assert ws + rest == rest;
    }
  }

  /** Whitespace after a part ends it. */
  lemma SplitFromBreak(ws: seq<byte>, rest: seq<byte>, word: seq<byte>)
    requires IsWord(word) && ws != [] && IsBlank(ws)
    ensures SplitFrom(ws + rest, word) == [word] + SplitFrom(rest, [])
  {
    assert (ws + rest)[0] == ws[0] && (ws + rest)[1..] == ws[1..] + rest;
    BlankTail(ws);
    SplitFromBlank(ws[1..], rest);
  }

  lemma SplitFromBlankEnd(ws: seq<byte>, word: seq<byte>)
    requires IsWord(word) && IsBlank(ws)
    ensures SplitFrom(ws, word) == [word]
  {
    if ws != [] {
      assert ws + [] == ws;
      SplitFromBreak(ws, [], word);
    }
  }

  lemma {:induction false} SplitFromInterleave(parts: seq<seq<byte>>, gaps: seq<seq<byte>>, trail: seq<byte>)
    requires IsLayout([], parts, gaps, trail)
    ensures SplitFrom(Interleave(parts, gaps) + trail, []) == parts
    decreases |parts|
  {
    if |parts| == 0 {
      assert [] + trail == trail && trail + [] == trail;
      SplitFromBlank(trail, []);
    } else if |parts| == 1 {
      SplitFromWord(parts[0], trail, []);
      assert [] + parts[0] == parts[0];
      SplitFromBlankEnd(trail, parts[0]);
    } else {
      var rest := Interleave(parts[1..], gaps[1..]) + trail;
      assert Interleave(parts, gaps) + trail == parts[0] + (gaps[0] + rest);
      SplitFromWord(parts[0], gaps[0] + rest, []);
      assert [] + parts[0] == parts[0];
      SplitFromBreak(gaps[0], rest, parts[0]);
      assert AreWords(parts[1..]) by {
        forall i | 0 <= i < |parts[1..]| ensures IsWord(parts[1..][i]) {
          assert parts[1..][i] == parts[i + 1];
        }
      }
      assert AreGaps(gaps[1..]) by {
        forall i | 0 <= i < |gaps[1..]| ensures gaps[1..][i] != [] && IsBlank(gaps[1..][i]) {
          assert gaps[1..][i] == gaps[i + 1];
        }
      }
      SplitFromInterleave(parts[1..], gaps[1..], trail);
      assert parts == [parts[0]] + parts[1..];
    }
  }

  /**
   * Splitting recovers exactly the words of a layout, whatever whitespace
   * runs lead, separate or trail them: each part is a maximal run of
   * non-whitespace bytes.
   */
  lemma SplitLayout(lead: seq<byte>, parts: seq<seq<byte>>, gaps: seq<seq<byte>>, trail: seq<byte>)
    requires IsLayout(lead, parts, gaps, trail)
    ensures Split(Layout(lead, parts, gaps, trail)) == parts
  {
    assert Layout(lead, parts, gaps, trail) == lead + (Interleave(parts, gaps) + trail);
    SplitFromBlank(lead, Interleave(parts, gaps) + trail);
    SplitFromInterleave(parts, gaps, trail);
  }

  /** The three outcomes of `get_raw_token`. */
  datatype RawToken =
    | NoToken             // returns None: empty header, or some other scheme
    | Malformed           // raises: right scheme, but not exactly two parts
    | Token(raw: seq<byte>)

  /**
   * The token of an Authorization header whose first part is one of the
   * `allowed` schemes and which has exactly one part after it.
   */
  function GetRawToken(header: seq<byte>, allowed: set<seq<byte>>): (r: RawToken)
    ensures IsBlank(header) ==> r == NoToken
    ensures r.Token? ==> IsWord(r.raw)
    ensures r.Token? ==> exists scheme :: scheme in allowed && NonWhitespace(header) == scheme + r.raw
  {
    var parts := Split(header);
    SplitEmptyIffBlank(header);
    if |parts| == 0 then NoToken
    else if parts[0] !in allowed then NoToken
    else if |parts| != 2 then Malformed
    else
      assert Concat(parts) == parts[0] + parts[1] by {
        assert Concat(parts[1..]) == parts[1] + Concat(parts[2..]);
      }
      Token(parts[1])
  }

  lemma InterleaveExtendFirst(c: byte, parts: seq<seq<byte>>, gaps: seq<seq<byte>>)
    requires |parts| >= 1 && GapCount(parts, gaps)
    ensures GapCount([[c] + parts[0]] + parts[1..], gaps)
    ensures Interleave([[c] + parts[0]] + parts[1..], gaps) == [c] + Interleave(parts, gaps)
  {
    var parts' := [[c] + parts[0]] + parts[1..];
    assert parts'[0] == [c] + parts[0] && parts'[1..] == parts[1..];
  }

  /** Every header has a layout: its words, and the whitespace around and between them. */
  lemma {:induction false} LayoutOf(h: seq<byte>)
    returns (lead: seq<byte>, parts: seq<seq<byte>>, gaps: seq<seq<byte>>, trail: seq<byte>)
    ensures IsLayout(lead, parts, gaps, trail) && Layout(lead, parts, gaps, trail) == h
    decreases |h|
  {
    if h == [] {
      return [], [], [], [];
    }
    var l, p, g, t := LayoutOf(h[1..]);
    var c := h[0];
    assert h == [c] + h[1..];
    if IsWhitespace(c) {
      lead, parts, gaps, trail := [c] + l, p, g, t;
      assert IsBlank(lead) by {
        forall i | 0 <= i < |lead| ensures IsWhitespace(lead[i]) {
          if i > 0 { assert lead[i] == l[i - 1]; }
        }
      }
    } else if p == [] {
      lead, parts, gaps, trail := [], [[c]], [], l + t;
      assert IsBlank(trail) by {
        forall i | 0 <= i < |trail| ensures IsWhitespace(trail[i]) {
          if i >= |l| { assert trail[i] == t[i - |l|]; }
        }
      }
      assert AreWords(parts) by {
        assert parts[0] == [c];
      }
      assert l + Interleave(p, g) + t == l + t;
    } else if l == [] {
      lead, parts, gaps, trail := [], [[c] + p[0]] + p[1..], g, t;
      InterleaveExtendFirst(c, p, g);
      assert AreWords(parts) by {
        forall i | 0 <= i < |parts| ensures IsWord(parts[i]) {
          if i == 0 {
            assert IsWord(p[0]);
            assert forall k :: 0 < k < |parts[0]| ==> parts[0][k] == p[0][k - 1];
          } else {
            assert parts[i] == p[i];
          }
        }
      }
      assert [] + Interleave(p, g) + t == Interleave(p, g) + t;
    } else {
      lead, parts, gaps, trail := [], [[c]] + p, [l] + g, t;
      assert parts[0] == [c] && parts[1..] == p && gaps[0] == l && gaps[1..] == g;
      assert Interleave(parts, gaps) == [c] + l + Interleave(p, g);
      assert AreWords(parts) by {
        forall i | 0 <= i < |parts| ensures IsWord(parts[i]) {
          if i > 0 { assert parts[i] == p[i - 1]; }
        }
      }
      assert AreGaps(gaps) by {
        forall i | 0 <= i < |gaps| ensures gaps[i] != [] && IsBlank(gaps[i]) {
          if i > 0 { assert gaps[i] == g[i - 1]; }
        }
      }
    }
  }

  /**
   * The outcome for any header, given its layout: no parts or another
   * scheme give no token, an allowed scheme with other than one more part
   * is rejected, otherwise the second part is the token.
   */
  lemma GetRawTokenOfLayout(lead: seq<byte>, parts: seq<seq<byte>>, gaps: seq<seq<byte>>, trail: seq<byte>,
                            allowed: set<seq<byte>>)
    requires IsLayout(lead, parts, gaps, trail)
    ensures GetRawToken(Layout(lead, parts, gaps, trail), allowed) ==
      if |parts| == 0 || parts[0] !in allowed then NoToken
      else if |parts| != 2 then Malformed
      else Token(parts[1])
  {
    SplitLayout(lead, parts, gaps, trail);
  }

  /**
   * An allowed scheme and a token, with any whitespace around and between
   * them (a space, a tab, several), yields exactly the token.
   */
  lemma TwoPartHeaderYieldsToken(lead: seq<byte>, scheme: seq<byte>, gap: seq<byte>, token: seq<byte>,
                                 trail: seq<byte>, allowed: set<seq<byte>>)
    requires IsLayout(lead, [scheme, token], [gap], trail) && scheme in allowed
    ensures GetRawToken(lead + scheme + gap + token + trail, allowed) == Token(token)
  {
    assert [scheme, token][1..] == [token] && [gap][1..] == [];
    assert Interleave([scheme, token], [gap]) == scheme + gap + token;
    assert Layout(lead, [scheme, token], [gap], trail) == lead + scheme + gap + token + trail;
    SplitLayout(lead, [scheme, token], [gap], trail);
  }

  /** A header whose first part is not an allowed scheme is ignored, not rejected. */
  lemma OtherSchemeIgnored(lead: seq<byte>, parts: seq<seq<byte>>, gaps: seq<seq<byte>>, trail: seq<byte>,
                           allowed: set<seq<byte>>)
    requires IsLayout(lead, parts, gaps, trail) && |parts| >= 1 && parts[0] !in allowed
    ensures GetRawToken(Layout(lead, parts, gaps, trail), allowed) == NoToken
  {
    SplitLayout(lead, parts, gaps, trail);
  }

  /** An allowed scheme followed by no token, or by more than one part, is rejected. */
  lemma WrongPartCountRejected(lead: seq<byte>, parts: seq<seq<byte>>, gaps: seq<seq<byte>>, trail: seq<byte>,
                               allowed: set<seq<byte>>)
    requires IsLayout(lead, parts, gaps, trail) && |parts| >= 1 && parts[0] in allowed && |parts| != 2
    ensures GetRawToken(Layout(lead, parts, gaps, trail), allowed) == Malformed
  {
    SplitLayout(lead, parts, gaps, trail);
  }

  /** The claims of a decoded token. */
  type Payload = map<string, string>

  /** What the token decoder (signature and expiry check) reports. */
  datatype DecodeResult = Decoded(payload: Payload) | DecodeFailed(reason: string)

  /** The distinct authentication failures. */
  datatype AuthError =
    | MalformedHeader                   // get_raw_token: wrong number of parts
    | InvalidToken(detail: Option<string>)  // no usable payload: decoder's reason, if it raised
    | NoUserIdentification              // payload lacks "username"
    | UserNotFound                      // code user_not_found
    | UserInactive                      // code user_inactive

  /**
   * The user a payload names, checked in order: the payload must carry a
   * username, a user must hold it, and that user must be active.
   */
  function GetUser(payload: Payload, users: map<string, Account>): (r: Result<Account, AuthError>)
    requires DirectoryConsistent(users)
    ensures "username" !in payload ==> r == Failure(NoUserIdentification)
    ensures "username" in payload && payload["username"] !in users ==> r == Failure(UserNotFound)
    ensures r.Success? <==>
      "username" in payload && payload["username"] in users && users[payload["username"]].isActive
    ensures r.Success? ==>
      r.value in users.Values && r.value.username == payload["username"] && r.value.isActive
    ensures "username" in payload && payload["username"] in users && !users[payload["username"]].isActive ==>
      r == Failure(UserInactive)
    ensures r.Failure? && r.error == UserInactive ==>
      "username" in payload && payload["username"] in users && !users[payload["username"]].isActive
  {
    if "username" !in payload then Failure(NoUserIdentification)
    else
      var username := payload["username"];
      if username !in users then Failure(UserNotFound)
      else if !users[username].isActive then Failure(UserInactive)
      else Success(users[username])
  }

  /** The outcome of `authenticate`: no credentials, a user and token, or a failure. */
  datatype AuthResult =
    | Anonymous
    | Authenticated(user: Account, token: Payload)
    | Failed(error: AuthError)

  /**
   * A missing header, an empty one or one with another scheme leaves the
   * request anonymous. Otherwise the token must decode to a non-empty
   * payload (an empty one is falsy and fails too) that names an active user.
   */
  function Authenticate(header: Option<seq<byte>>, allowed: set<seq<byte>>,
                        decode: seq<byte> -> DecodeResult,
                        users: map<string, Account>): (r: AuthResult)
    requires DirectoryConsistent(users)
    ensures r.Anonymous? <==> header.None? || GetRawToken(header.value, allowed) == NoToken
    ensures r == Failed(MalformedHeader) <==> header.Some? && GetRawToken(header.value, allowed) == Malformed
    ensures r.Failed? && r.error.InvalidToken? <==>
      header.Some? && GetRawToken(header.value, allowed).Token?
      && (decode(GetRawToken(header.value, allowed).raw).DecodeFailed?
          || decode(GetRawToken(header.value, allowed).raw).payload == map[])
    ensures (header.Some? && GetRawToken(header.value, allowed).Token?
             && decode(GetRawToken(header.value, allowed).raw).DecodeFailed?) ==>
      r == Failed(InvalidToken(Some("Authentication failed: " + decode(GetRawToken(header.value, allowed).raw).reason)))
    ensures (header.Some? && GetRawToken(header.value, allowed).Token?
             && decode(GetRawToken(header.value, allowed).raw) == Decoded(map[])) ==>
      r == Failed(InvalidToken(None))
    ensures (header.Some? && GetRawToken(header.value, allowed).Token?
             && decode(GetRawToken(header.value, allowed).raw).Decoded?
             && decode(GetRawToken(header.value, allowed).raw).payload != map[]) ==>
      var payload := decode(GetRawToken(header.value, allowed).raw).payload;
      r == match GetUser(payload, users)
           case Success(user) => Authenticated(user, payload)
           case Failure(e) => Failed(e)
    ensures r.Authenticated? ==>
      header.Some? && GetRawToken(header.value, allowed).Token?
      && decode(GetRawToken(header.value, allowed).raw) == Decoded(r.token)
      && r.token != map[]
      && GetUser(r.token, users) == Success(r.user)
      && r.user in users.Values && r.user.isActive
  {
    if header.None? then Anonymous
    else
      match GetRawToken(header.value, allowed)
      case NoToken => Anonymous
      case Malformed => Failed(MalformedHeader)
      case Token(raw) =>
        match decode(raw)
        case DecodeFailed(reason) => Failed(InvalidToken(Some("Authentication failed: " + reason)))
        case Decoded(payload) =>
          if payload == map[] then Failed(InvalidToken(None))
          else
            match GetUser(payload, users)
            case Failure(e) => Failed(e)
            case Success(user) => Authenticated(user, payload)
  }
}
