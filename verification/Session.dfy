/** Admin session tokens: base64url(username) "." expiry "." base64url(HMAC). */
module Session {
  import opened Wrappers
  import opened Bytes
  import opened Base64
  import opened Decimal
  import opened Strings

  /** The keyed hash; any function of the secret and the message. */
  type Sign = (Data, string) -> Data

  /** Go's decoder skips line breaks, and ignores spare bits as DecodeRaw does. */
  function SkipBreaks(s: string): string {
    if s == "" then ""
    else if s[0] == '\r' || s[0] == '\n' then SkipBreaks(s[1..])
    else [s[0]] + SkipBreaks(s[1..])
  }

  function DecodeString(s: string): Option<Data> {
    DecodeRaw(Url, SkipBreaks(s))
  }

  /** What is signed. */
  function Message(username: Data, expiry: int): string {
    EncodeRaw(Url, username) + "." + FormatInt(expiry)
  }

  function UnixSeconds(now: int): int {
    now / 1_000_000_000
  }

  /** IssueToken at clock reading `now` (nanoseconds). */
  function IssueToken(sign: Sign, secret: Data, username: Data, ttl: int, now: int): string {
    var message := Message(username, UnixSeconds(now + ttl));
    message + "." + EncodeRaw(Url, sign(secret, message))
  }

  /** strings.Cut around the first dot. */
  function Cut(s: string): Option<(string, string)> {
    var dot := IndexOf(s, '.');
    if dot == |s| then None else Some((s[..dot], s[dot + 1..]))
  }

  /** The three parts of a token. */
  function Parts(token: string): Option<(string, string, string)> {
    match Cut(token)
    case None => None
    case Some((user, rest)) =>
      match Cut(rest)
      case None => None
      case Some((expiry, sig)) => Some((user, expiry, sig))
  }

  /** Validate at clock reading `now`. */
  function Validate(sign: Sign, secret: Data, token: string, now: int): Option<Data> {
    if secret == [] then None
    else
      match Parts(token)
      case None => None
      case Some((user, expiryStr, sig)) =>
        if DecodeString(sig) != Some(sign(secret, user + "." + expiryStr)) then None
        else
          match DecodeString(user)
          case None => None
          case Some(username) =>
            match ParseInt(expiryStr)
            case None => None
            case Some(expiry) => if UnixSeconds(now) >= expiry then None else Some(username)
  }

  // Round trip.

  lemma {:induction false} NoBreaksToSkip(s: string)
    requires '\r' !in s && '\n' !in s
    ensures SkipBreaks(s) == s
    decreases s
  {
    if s != "" {
      assert forall i :: 0 <= i < |s[1..]| ==> s[1..][i] in s;
      NoBreaksToSkip(s[1..]);
      assert [s[0]] + s[1..] == s;
    }
  }

  lemma AlphabetPlain(s: string)
    requires InAlphabet(Url, s)
    ensures '.' !in s && '\r' !in s && '\n' !in s
  {
  }

  /** base64url survives Go's decoder for every byte string. */
  lemma DecodesWhatItEncodes(b: Data)
    ensures '.' !in EncodeRaw(Url, b) && DecodeString(EncodeRaw(Url, b)) == Some(b)
  {
    RawRoundTrip(Url, b);
    AlphabetPlain(EncodeRaw(Url, b));
    NoBreaksToSkip(EncodeRaw(Url, b));
  }

  lemma NumbersHaveNoDot(n: int)
    ensures '.' !in FormatInt(n)
  {
    NatRoundTrip(if n < 0 then -n else n);
  }

  lemma CutsAtDot(front: string, back: string)
    requires '.' !in front
    ensures Cut(front + "." + back) == Some((front, back))
  {
    IndexOfSeparator(front, '.', back);
    assert (front + "." + back)[..|front|] == front;
    assert (front + "." + back)[|front| + 1..] == back;
  }

  lemma PartsOf(user: string, expiry: string, sig: string)
    requires '.' !in user && '.' !in expiry
    ensures Parts(user + "." + expiry + "." + sig) == Some((user, expiry, sig))
  {
    assert user + "." + expiry + "." + sig == user + "." + (expiry + "." + sig);
    CutsAtDot(user, expiry + "." + sig);
    CutsAtDot(expiry, sig);
  }

  /** Main result: an issued token names its user until its expiry and nobody afterwards. */
  lemma IssuedTokenValidates(sign: Sign, secret: Data, username: Data, ttl: int, issued: int, now: int)
    requires secret != [] && InInt64(UnixSeconds(issued + ttl))
    ensures Validate(sign, secret, IssueToken(sign, secret, username, ttl, issued), now)
         == if UnixSeconds(now) < UnixSeconds(issued + ttl) then Some(username) else None
  {
    var expiry := UnixSeconds(issued + ttl);
    var message := Message(username, expiry);
    var sig := EncodeRaw(Url, sign(secret, message));
    DecodesWhatItEncodes(username);
    DecodesWhatItEncodes(sign(secret, message));
    NumbersHaveNoDot(expiry);
    IntRoundTrip(expiry);
    PartsOf(EncodeRaw(Url, username), FormatInt(expiry), sig);
  }

  // What an accepted token proves.

  /** Different users or expiries are never signed as the same message. */
  lemma MessageInjective(username: Data, expiry: int, username': Data, expiry': int)
    requires InInt64(expiry) && InInt64(expiry') && Message(username, expiry) == Message(username', expiry')
    ensures username == username' && expiry == expiry'
  {
    DecodesWhatItEncodes(username);
    DecodesWhatItEncodes(username');
    CutsAtDot(EncodeRaw(Url, username), FormatInt(expiry));
    CutsAtDot(EncodeRaw(Url, username'), FormatInt(expiry'));
    IntRoundTrip(expiry);
    IntRoundTrip(expiry');
  }

  lemma CutJoins(s: string, front: string, back: string)
    requires Cut(s) == Some((front, back))
    ensures s == front + "." + back && '.' !in front
  {
    IndexOfIs(s, '.');
  }

  lemma Reassociate(user: string, expiry: string, sig: string)
    ensures user + "." + (expiry + "." + sig) == user + "." + expiry + "." + sig
  {
  }

  lemma TokenJoins(token: string)
    requires Parts(token).Some?
    ensures var (user, expiry, sig) := Parts(token).value;
            token == user + "." + expiry + "." + sig && '.' !in user && '.' !in expiry
  {
    var (user, rest) := Cut(token).value;
    var (expiry, sig) := Cut(rest).value;
    CutJoins(token, user, rest);
    CutJoins(rest, expiry, sig);
    Reassociate(user, expiry, sig);
  }

  /** The message whose signature a token carries. */
  function Signed(token: string): Option<string> {
    match Parts(token)
    case None => None
    case Some((user, expiry, sig)) => Some(user + "." + expiry)
  }

  /**
   A token is only accepted with a signature of its own message; if that message was issued (as it must
   have been when signatures cannot be forged), it names the issued user, before the issued expiry.
   */
  lemma AcceptedMeansIssued(sign: Sign, secret: Data, token: string, now: int, username: Data, expiry: int)
    requires Validate(sign, secret, token, now).Some? && InInt64(expiry)
    requires Signed(token) == Some(Message(username, expiry))
    ensures Validate(sign, secret, token, now) == Some(username) && UnixSeconds(now) < expiry
    ensures DecodeString(Parts(token).value.2) == Some(sign(secret, Message(username, expiry)))
  {
    var (user, expiryStr, sig) := Parts(token).value;
    DecodesWhatItEncodes(username);
    CutsAtDot(EncodeRaw(Url, username), FormatInt(expiry));
    TokenJoins(token);
    CutsAtDot(user, expiryStr);
    IntRoundTrip(expiry);
  }

  // Which spellings of a signature are accepted.

  /** A cookie value has no line breaks. */
  predicate NoBreaks(s: string) {
    '\r' !in s && '\n' !in s
  }

  /** The texts agree but for the two spare bits of their last characters. */
  predicate SameButSpareBits(s: string, e: string)
    requires e != "" && InAlphabet(Url, e)
  {
    && |s| == |e| && InAlphabet(Url, s) && s[..|s| - 1] == e[..|e| - 1]
    && CharSextet(Url, s[|s| - 1]).value / 4 == CharSextet(Url, e[|e| - 1]).value / 4
  }

  lemma EncodesToText(b: Data)
    requires |b| % 3 == 2
    ensures EncodeRaw(Url, b) != "" && InAlphabet(Url, EncodeRaw(Url, b))
    ensures Scan(Url, EncodeRaw(Url, b)) == Sextets(b) && ClearSpare(Sextets(b)) == Sextets(b)
  {
    DecodesToIff(Sextets(b), b);
    SextetsRoundTrip(b);
    PrintScan(Url, Sextets(b));
  }

  lemma SameTextIff(s: string, t: string)
    requires InAlphabet(Url, s) && InAlphabet(Url, t)
    ensures s == t <==> Scan(Url, s) == Scan(Url, t)
  {
    if Scan(Url, s) == Scan(Url, t) {
      assert |s| == |t|;
      forall i | 0 <= i < |s| ensures s[i] == t[i] {
        assert Scan(Url, s)[i] == Scan(Url, t)[i];
        CharRoundTrip(Url, s[i]);
        CharRoundTrip(Url, t[i]);
      }
    }
  }

  lemma ScanFront(s: string)
    requires s != "" && InAlphabet(Url, s)
    ensures InAlphabet(Url, s[..|s| - 1]) && Scan(Url, s[..|s| - 1]) == Scan(Url, s)[..|s| - 1]
  {
  }

  lemma SpareBitsIff(s: string, e: string)
    requires s != "" && e != "" && |s| == |e| && InAlphabet(Url, s) && InAlphabet(Url, e)
    requires ClearSpare(Scan(Url, e)) == Scan(Url, e)
    ensures SameButSpareBits(s, e) <==> ClearSpare(Scan(Url, s)) == Scan(Url, e)
  {
    var v, w := Scan(Url, s), Scan(Url, e);
    var n := |s| - 1;
    ScanFront(s);
    ScanFront(e);
    SameTextIff(s[..n], e[..n]);
    assert ClearSpare(w)[n] == w[n] / 4 * 4;
    assert ClearSpare(v) == v[..n] + [v[n] / 4 * 4];
    assert w == w[..n] + [w[n]];
    assert v[n] / 4 == w[n] / 4 <==> v[n] / 4 * 4 == w[n] / 4 * 4;
    if ClearSpare(v) == w {
      assert v[..n] == ClearSpare(v)[..n] && v[n] / 4 * 4 == ClearSpare(v)[n];
    }
  }

  /** A text without line breaks decodes to b exactly if it is b's encoding up to the spare bits. */
  lemma SpellingsIff(b: Data, s: string)
    requires |b| % 3 == 2 && NoBreaks(s)
    ensures EncodeRaw(Url, b) != "" && InAlphabet(Url, EncodeRaw(Url, b))
    ensures DecodeString(s) == Some(b) <==> SameButSpareBits(s, EncodeRaw(Url, b))
  {
    NoBreaksToSkip(s);
    EncodesToText(b);
    if InAlphabet(Url, s) {
      DecodesToIff(Scan(Url, s), b);
      if |s| == |EncodeRaw(Url, b)| {
        SpareBitsIff(s, EncodeRaw(Url, b));
      }
    }
  }

  /** The token the server hands out for a message. */
  function Issued(sign: Sign, secret: Data, message: string): string {
    message + "." + EncodeRaw(Url, sign(secret, message))
  }

  lemma BreaksInParts(token: string)
    requires Parts(token).Some? && NoBreaks(token)
    ensures NoBreaks(Parts(token).value.2)
  {
    var (user, expiry, sig) := Parts(token).value;
    TokenJoins(token);
    var front := user + "." + expiry + ".";
    assert token == front + sig;
    assert forall i :: 0 <= i < |sig| ==> token[|front| + i] == sig[i];
  }

  /**
   The exact extent of malleability. A 32-byte signature leaves two spare bits in its last character. A
   cookie's token for some message is treated as the issued token of that message if it differs from it in
   those two bits at most, and refused otherwise.
   */
  lemma AcceptedSpellingsIff(sign: Sign, secret: Data, token: string, message: string, now: int)
    requires |sign(secret, message)| == 32
    requires NoBreaks(token) && Signed(token) == Some(message)
    ensures var e := EncodeRaw(Url, sign(secret, message));
            && e != "" && InAlphabet(Url, e)
            && Validate(sign, secret, token, now)
               == if SameButSpareBits(Parts(token).value.2, e) then
                    Validate(sign, secret, Issued(sign, secret, message), now)
                  else None
  {
    var (user, expiryStr, sig) := Parts(token).value;
    var signature := sign(secret, message);
    TokenJoins(token);
    BreaksInParts(token);
    SpellingsIff(signature, sig);
    DecodesWhatItEncodes(signature);
    PartsOf(user, expiryStr, EncodeRaw(Url, signature));
  }

  /** The text with the two spare bits of its last character set to k. */
  function Respelled(e: string, k: int): string
    requires e != "" && InAlphabet(Url, e) && 0 <= k < 4
  {
    e[|e| - 1 := SextetChar(Url, CharSextet(Url, e[|e| - 1]).value / 4 * 4 + k)]
  }

  lemma SetSpare(value: int, k: int)
    requires value / 4 * 4 == value && 0 <= k < 4
    ensures (value + k) / 4 == value / 4
  {
  }

  lemma RespelledChar(value: sextet, k: int)
    requires value / 4 * 4 == value && 0 <= k < 4
    ensures value + k < 64
    ensures var c := SextetChar(Url, value + k);
            && CharSextet(Url, c) == Some(value + k) && (value + k) / 4 == value / 4
            && (c == SextetChar(Url, value) <==> k == 0)
  {
    SetSpare(value, k);
    AlphabetRoundTrip(Url, value + k);
    AlphabetRoundTrip(Url, value);
  }

  lemma RespelledIsSame(e: string, k: int)
    requires e != "" && InAlphabet(Url, e) && 0 <= k < 4
    requires var value := CharSextet(Url, e[|e| - 1]).value; value / 4 * 4 == value
    ensures SameButSpareBits(Respelled(e, k), e) && NoBreaks(Respelled(e, k))
    ensures Respelled(e, k) == e <==> k == 0
  {
    var n := |e| - 1;
    RespelledChar(CharSextet(Url, e[n]).value, k);
    CharRoundTrip(Url, e[n]);
    var s := Respelled(e, k);
    assert s[..n] == e[..n];
    AlphabetPlain(s);
  }

  lemma NoSpareInEncoding(b: Data)
    requires |b| % 3 == 2
    ensures var e := EncodeRaw(Url, b);
            && e != "" && InAlphabet(Url, e)
            && (var value := CharSextet(Url, e[|e| - 1]).value; value / 4 * 4 == value)
  {
    EncodesToText(b);
    var v := Sextets(b);
    assert ClearSpare(v)[|v| - 1] == v[|v| - 1] / 4 * 4;
  }

  lemma SpellingDecodes(b: Data, k: int)
    requires |b| % 3 == 2 && 0 <= k < 4
    ensures EncodeRaw(Url, b) != "" && InAlphabet(Url, EncodeRaw(Url, b))
    ensures DecodeString(Respelled(EncodeRaw(Url, b), k)) == Some(b)
    ensures Respelled(EncodeRaw(Url, b), k) == EncodeRaw(Url, b) <==> k == 0
  {
    NoSpareInEncoding(b);
    RespelledIsSame(EncodeRaw(Url, b), k);
    SpellingsIff(b, Respelled(EncodeRaw(Url, b), k));
  }

  lemma OnlyDecodingCounts(sign: Sign, secret: Data, user: string, expiry: string, s: string, e: string, now: int)
    requires '.' !in user && '.' !in expiry && DecodeString(s) == DecodeString(e)
    ensures Validate(sign, secret, user + "." + expiry + "." + s, now)
         == Validate(sign, secret, user + "." + expiry + "." + e, now)
  {
    PartsOf(user, expiry, s);
    PartsOf(user, expiry, e);
  }

  lemma Cancels(front: string, s: string, e: string)
    ensures front + s == front + e <==> s == e
  {
    assert (front + s)[|front|..] == s && (front + e)[|front|..] == e;
  }

  /** The spellings are pairwise different. */
  lemma RespelledDiffer(e: string, value: sextet, k: int, j: int)
    requires e != "" && InAlphabet(Url, e) && CharSextet(Url, e[|e| - 1]) == Some(value) && value / 4 * 4 == value
    requires 0 <= k < 4 && 0 <= j < 4 && k != j
    ensures Respelled(e, k) != Respelled(e, j)
  {
    RespelledChar(value, k);
    RespelledChar(value, j);
    assert Respelled(e, k)[|e| - 1] == SextetChar(Url, value + k);
    assert Respelled(e, j)[|e| - 1] == SextetChar(Url, value + j);
  }

  lemma SpellingsDiffer(b: Data, front: string, k: int, j: int)
    requires |b| % 3 == 2 && 0 <= k < 4 && 0 <= j < 4 && k != j
    ensures EncodeRaw(Url, b) != "" && InAlphabet(Url, EncodeRaw(Url, b))
    ensures front + Respelled(EncodeRaw(Url, b), j) != front + Respelled(EncodeRaw(Url, b), k)
  {
    NoSpareInEncoding(b);
    var e := EncodeRaw(Url, b);
    RespelledDiffer(e, CharSextet(Url, e[|e| - 1]).value, k, j);
    Cancels(front, Respelled(e, j), Respelled(e, k));
  }

  /** So each message has four tokens a cookie can carry, all accepted alike; k == 0 gives the issued one. */
  lemma FourSpellings(sign: Sign, secret: Data, username: Data, expiry: int, now: int, k: int)
    requires 0 <= k < 4 && |sign(secret, Message(username, expiry))| == 32
    ensures var message := Message(username, expiry);
            var e := EncodeRaw(Url, sign(secret, message));
            && e != "" && InAlphabet(Url, e)
            && (forall j :: 0 <= j < 4 && j != k ==>
                  message + "." + Respelled(e, j) != message + "." + Respelled(e, k))
            && (var other := message + "." + Respelled(e, k);
                && (other == Issued(sign, secret, message) <==> k == 0)
                && Validate(sign, secret, other, now) == Validate(sign, secret, Issued(sign, secret, message), now))
  {
    var message := Message(username, expiry);
    var e := EncodeRaw(Url, sign(secret, message));
    SpellingDecodes(sign(secret, message), k);
    Cancels(message + ".", Respelled(e, k), e);
    forall j | 0 <= j < 4 && j != k ensures message + "." + Respelled(e, j) != message + "." + Respelled(e, k) {
      SpellingsDiffer(sign(secret, message), message + ".", k, j);
    }
    DecodesWhatItEncodes(username);
    DecodesWhatItEncodes(sign(secret, message));
    NumbersHaveNoDot(expiry);
    OnlyDecodingCounts(sign, secret, EncodeRaw(Url, username), FormatInt(expiry), Respelled(e, k), e, now);
  }

  // Spelled out.

  /** Without a configured secret nothing is accepted. */
  lemma EmptySecretRefusesAll(sign: Sign, token: string, now: int)
    ensures Validate(sign, [], token, now) == None
  {
  }

  /** What is accepted has two dots at least. */
  lemma TokensHaveThreeParts(sign: Sign, secret: Data, token: string, now: int)
    ensures Validate(sign, secret, token, now).Some? ==>
              exists i, j :: 0 <= i < j < |token| && token[i] == '.' && token[j] == '.'
  {
    if Validate(sign, secret, token, now).Some? {
      var (user, expiry, sig) := Parts(token).value;
      TokenJoins(token);
      assert token[|user|] == '.' && token[|user| + 1 + |expiry|] == '.';
    }
  }

  /** The issued text: user and signature in base64url, the expiry in whole Unix seconds, signed up to the last dot. */
  lemma IssuedText(sign: Sign, secret: Data, username: Data, ttl: int, now: int)
    ensures var message := EncodeRaw(Url, username) + "." + FormatInt((now + ttl) / 1_000_000_000);
            IssueToken(sign, secret, username, ttl, now) == message + "." + EncodeRaw(Url, sign(secret, message))
  {
  }

  /** Line breaks anywhere in a base64url text are skipped. */
  lemma BreaksAreSkipped(b: Data, front: string, back: string)
    requires front + back == EncodeRaw(Url, b)
    ensures DecodeString(front + "\r\n" + back) == Some(b)
  {
    BreaksVanish(front, "\r\n", back);
    DecodesWhatItEncodes(b);
  }

  lemma BreaksVanish(front: string, breaks: string, back: string)
    requires breaks == "\r\n"
    ensures SkipBreaks(front + breaks + back) == SkipBreaks(front + back)
  {
    SkipsPiecewise(front + breaks, back);
    SkipsPiecewise(front, breaks);
    SkipsPiecewise(front, back);
    assert SkipBreaks(breaks[1..]) == "" by {
      assert breaks[1..] == "\n" && breaks[1..][1..] == "";
    }
  }

  lemma {:induction false} SkipsPiecewise(s: string, t: string)
    ensures SkipBreaks(s + t) == SkipBreaks(s) + SkipBreaks(t)
    decreases s
  {
    if s == "" {
      assert s + t == t;
    } else {
      assert (s + t)[1..] == s[1..] + t;
      SkipsPiecewise(s[1..], t);
    }
  }
}
