/** The four stages of the Basic credential pipeline (RFC 7617): find the
    encoded part of an `Authorization: Basic …` header, base64-decode it to
    text, split the text into user-id and password at the first `:`, and
    look the user up.  Every rejection is `None`, except two failures of
    the decoding stage that escape as exceptions: a text with a non-ASCII
    character (`ValueError`) and decoded bytes that are not UTF-8
    (`UnicodeDecodeError`). */
module BasicAuth {
  import opened Wrappers
  import Base64

  /** The scheme marker a Basic header starts with. */
  const Scheme: string := "Basic "

  /** The characters `str.strip('Basic ')` removes from both ends: the
      argument is read as a set of characters, not as a prefix. */
  predicate InStripSet(c: char) {
    c == 'B' || c == 'a' || c == 's' || c == 'i' || c == 'c' || c == ' '
  }

  predicate AllStripped(s: string) {
    forall k :: 0 <= k < |s| ==> InStripSet(s[k])
  }

  /** Drops leading characters of the strip set. */
  function StripLeft(s: string): (r: string)
    ensures |r| <= |s| && r == s[|s| - |r|..]
    ensures AllStripped(s[..|s| - |r|])
    ensures r != [] ==> !InStripSet(r[0])
  {
    if s != [] && InStripSet(s[0]) then
      var r := StripLeft(s[1..]);
      assert s[..|s| - |r|] == [s[0]] + s[1..][..|s| - 1 - |r|];
      r
    else s
  }

  /** Drops trailing characters of the strip set. */
  function StripRight(s: string): (r: string)
    ensures |r| <= |s| && r == s[..|r|]
    ensures AllStripped(s[|r|..])
    ensures r != [] ==> !InStripSet(r[|r| - 1])
  {
    if s != [] && InStripSet(s[|s| - 1]) then
      var r := StripRight(s[..|s| - 1]);
      assert s[|r|..] == s[..|s| - 1][|r|..] + [s[|s| - 1]];
      r
    else s
  }

  /** Python's `s.strip('Basic ')`. */
  function Strip(s: string): (r: string)
    ensures |r| <= |s|
    ensures r != [] ==> !InStripSet(r[0]) && !InStripSet(r[|r| - 1])
  {
    StripRight(StripLeft(s))
  }

  /** Leading characters of the strip set in front of a text that does not
      start with one are all removed, and nothing more. */
  lemma {:induction false} StripLeftPrefix(p: string, m: string)
    requires AllStripped(p)
    requires m == [] || !InStripSet(m[0])
    ensures StripLeft(p + m) == m
    decreases |p|
  {
    if p != [] {
      assert (p + m)[1..] == p[1..] + m;
      StripLeftPrefix(p[1..], m);
    } else {
      assert p + m == m;
    }
  }

  /** The mirror image of StripLeftPrefix for the end of the text. */
  lemma {:induction false} StripRightSuffix(m: string, q: string)
    requires AllStripped(q)
    requires m == [] || !InStripSet(m[|m| - 1])
    ensures StripRight(m + q) == m
    decreases |q|
  {
    if q != [] {
      assert (m + q)[..|m + q| - 1] == m + q[..|q| - 1];
      StripRightSuffix(m, q[..|q| - 1]);
    } else {
      assert m + q == m;
    }
  }

  /** Reference reading of `strip`: whenever a text is a run of strip-set
      characters, a core that neither starts nor ends with one, and another
      such run, `strip` returns that core. */
  lemma StripCharacterized(p: string, m: string, q: string)
    requires AllStripped(p) && AllStripped(q)
    requires m == [] || (!InStripSet(m[0]) && !InStripSet(m[|m| - 1]))
    ensures Strip(p + m + q) == m
  {
    if m == [] {
      assert p + m + q == p + q;
      assert AllStripped(p + q);
      StripLeftPrefix(p + q, []);
      assert p + q + [] == p + q;
      StripRightSuffix([], []);
    } else {
      assert p + m + q == p + (m + q);
      StripLeftPrefix(p, m + q);
      StripRightSuffix(m, q);
    }
  }

  /** `extract_base64_authorization_header` as written: `None` unless the
      header starts with `Basic `; otherwise the header with strip-set
      characters removed from both ends. */
  function ExtractBase64AsWritten(header: Option<string>): (r: Option<string>)
    ensures r.Some? <==> header.Some? && Scheme <= header.value
    ensures r.Some? ==> |r.value| <= |header.value| - |Scheme|
    ensures r.Some? && r.value != [] ==> !InStripSet(r.value[0]) && !InStripSet(r.value[|r.value| - 1])
  {
    if header == None || header.value == [] then None
    else if !(Scheme <= header.value) then None
    else
      StripPastScheme(header.value);
      Some(Strip(header.value))
  }

  lemma SchemeAllStripped()
    ensures AllStripped(Scheme)
  {
  }

  /** Stripping a text that starts with `Basic ` removes the marker and
      then strips what follows it. */
  lemma StripPastScheme(h: string)
    requires Scheme <= h
    ensures Strip(h) == StripRight(StripLeft(h[|Scheme|..]))
    ensures |Strip(h)| <= |h| - |Scheme|
  {
    var t := h[|Scheme|..];
    assert h == Scheme + t;
    SchemeAllStripped();
    StripLeftSkips(Scheme, t);
  }

  /** Strip-set characters in front of a text are removed together with
      whatever the text itself would lose. */
  lemma {:induction false} StripLeftSkips(a: string, t: string)
    requires AllStripped(a)
    ensures StripLeft(a + t) == StripLeft(t)
    decreases |a|
  {
    if a == [] {
      assert a + t == t;
    } else {
      assert (a + t)[0] == a[0] && (a + t)[1..] == a[1..] + t;
      StripLeftSkips(a[1..], t);
    }
  }

  /** As written, the payload after `Basic ` comes back unchanged exactly
      when it neither begins nor ends with a character of the strip set. */
  lemma ExtractAsWrittenKeepsPayload(payload: string)
    ensures ExtractBase64AsWritten(Some(Scheme + payload)) == Some(payload)
            <==> payload == [] || (!InStripSet(payload[0]) && !InStripSet(payload[|payload| - 1]))
  {
    assert Scheme <= Scheme + payload;
    if payload == [] || (!InStripSet(payload[0]) && !InStripSet(payload[|payload| - 1])) {
      StripCharacterized(Scheme, payload, []);
      assert Scheme + payload + [] == Scheme + payload;
    }
  }

  /** The single group of the bytes of "a:b". */
  lemma ColonGroup()
    ensures Base64.EncodeGroup(97, 58, 98) == "YTpi"
  {
    assert 97 / 4 == 24 && (97 % 4) * 16 + 58 / 16 == 19;
    assert (58 % 16) * 4 + 98 / 64 == 41 && 98 % 64 == 34;
    assert Base64.CharOf(24) == 'Y';
    assert Base64.CharOf(19) == 'T';
    assert Base64.CharOf(41) == 'p';
    assert Base64.CharOf(34) == 'i';
  }

  /** "YTpi" is the base64 text of the bytes of "a:b". */
  lemma EncodeColonExample()
    ensures Base64.Encode([97, 58, 98]) == "YTpi"
  {
    var b: seq<Base64.byte> := [97, 58, 98];
    ColonGroup();
    Base64.EncodeSplit(b);
    assert b[3..] == [];
  }

  /** The header "Basic YTpi" carries the credentials "a:b"; as written,
      the final `i` of the payload is stripped too, and what is left is
      not base64, so the credentials are lost. */
  lemma AsWrittenLosesPayload(utf8: seq<Base64.byte> -> Option<string>)
    ensures ExtractBase64AsWritten(Some("Basic YTpi")) == Some("YTp")
    ensures DecodeBase64Header(Some("YTp"), utf8) == Ok(None)
  {
    TruncatedRejected(utf8);
    assert "Basic YTpi" == Scheme + "YTp" + "i";
    SchemeAllStripped();
    StripCharacterized(Scheme, "YTp", "i");
  }

  /** "YTp" is ASCII but not a whole base64 group, so decoding it gives
      `None` without an exception. */
  lemma TruncatedRejected(utf8: seq<Base64.byte> -> Option<string>)
    ensures DecodeBase64Header(Some("YTp"), utf8) == Ok(None)
  {
    assert AllAscii("YTp");
    assert Base64.Decode("YTp") == None;
  }

  /** The intended extraction keeps the same payload intact. */
  lemma IntendedKeepsPayload()
    ensures ExtractBase64(Some("Basic YTpi")) == Some("YTpi")
  {
    assert "Basic YTpi" == Scheme + "YTpi";
  }

  /** The intended extraction: the text after `Basic `, unchanged. */
  function ExtractBase64(header: Option<string>): (r: Option<string>)
    ensures r.Some? <==> header.Some? && Scheme <= header.value
    ensures r.Some? ==> header.value == Scheme + r.value
  {
    if header == None || header.value == [] then None
    else if !(Scheme <= header.value) then None
    else Some(header.value[|Scheme|..])
  }

  /** Only ASCII characters: `b64decode` encodes a `str` argument as ASCII
      before it decodes anything. */
  predicate AllAscii(s: string) {
    forall k :: 0 <= k < |s| ==> s[k] as int < 128
  }

  /** Stage 2: base64 text to UTF-8 text.  `utf8` is the decoder of UTF-8
      byte strings, `None` where the bytes are not UTF-8.  Empty or
      non-base64 input gives `None`.  Two failures are not caught, since
      only `binascii.Error` is: a non-ASCII character raises `ValueError`,
      and bytes that are not UTF-8 raise `UnicodeDecodeError`. */
  function DecodeBase64Header(encoded: Option<string>, utf8: seq<Base64.byte> -> Option<string>)
    : (r: Result<Option<string>>)
    ensures encoded == None || encoded == Some("") ==> r == Ok(None)
    ensures r == Err(ValueError) <==> encoded.Some? && encoded.value != [] && !AllAscii(encoded.value)
    ensures r == Err(UnicodeDecodeError) <==>
              encoded.Some? && encoded.value != [] && AllAscii(encoded.value)
              && Base64.Decode(encoded.value).Some? && utf8(Base64.Decode(encoded.value).value) == None
    ensures r.Err? ==> r.error == ValueError || r.error == UnicodeDecodeError
    ensures r.Ok? && r.value.Some? ==>
              encoded.Some? && Base64.Decode(encoded.value).Some?
              && utf8(Base64.Decode(encoded.value).value) == Some(r.value.value)
    ensures encoded.Some? && encoded.value != [] && AllAscii(encoded.value)
            && Base64.Decode(encoded.value).Some? && utf8(Base64.Decode(encoded.value).value).Some? ==>
              r == Ok(utf8(Base64.Decode(encoded.value).value))
  {
    if encoded == None || encoded.value == [] then Ok(None)
    else if !AllAscii(encoded.value) then Err(ValueError)
    else match Base64.Decode(encoded.value)
      case None => Ok(None)
      case Some(bytes) =>
        match utf8(bytes)
        case None => Err(UnicodeDecodeError)
        case Some(text) => Ok(Some(text))
  }

  /** A text with a non-ASCII character is never base64: the ASCII check
      turns a `None` into `ValueError` and hides no decodable text. */
  lemma NonAsciiUndecodable(s: string, k: nat)
    requires k < |s| && s[k] as int >= 128
    ensures Base64.Decode(s) == None
    ensures DecodeBase64Header(Some(s), (b: seq<Base64.byte>) => None) == Err(ValueError)
  {
    assert !Base64.IsAlphabet(s[k]) && s[k] != Base64.Pad;
    Base64.ForeignCharRejected(s, k);
  }

  /** The text "YWJjé" raises `ValueError` whatever its bytes would be. */
  lemma NonAsciiRaises(utf8: seq<Base64.byte> -> Option<string>)
    ensures DecodeBase64Header(Some("YWJj\U{e9}"), utf8) == Err(ValueError)
  {
    assert "YWJj\U{e9}"[4] as int >= 128;
  }

  /** "YR==" is valid base64 although its unused bits are not zero: it
      decodes to the byte of "a", and so to the text "a". */
  lemma NonCanonicalAccepted(utf8: seq<Base64.byte> -> Option<string>)
    requires utf8([97]) == Some("a")
    ensures DecodeBase64Header(Some("YR=="), utf8) == Ok(Some("a"))
  {
    assert Base64.ValueOf('Y') == 24 && Base64.ValueOf('R') == 17;
    assert Base64.Decode("YR==") == Some([97]);
  }

  /** Round trip: the base64 encoding of a non-empty UTF-8 byte string
      decodes back to the text those bytes encode. */
  lemma DecodeHeaderRoundTrip(bytes: seq<Base64.byte>, text: string, utf8: seq<Base64.byte> -> Option<string>)
    requires bytes != [] && utf8(bytes) == Some(text)
    ensures DecodeBase64Header(Some(Base64.Encode(bytes)), utf8) == Ok(Some(text))
  {
    Base64.DecodeEncode(bytes);
    assert AllAscii(Base64.Encode(bytes));
  }

  /** Index of the first `:` of a text that has one. */
  function FirstColon(s: string): (i: nat)
    requires ':' in s
    ensures i < |s| && s[i] == ':' && ':' !in s[..i]
  {
    if s[0] == ':' then 0
    else
      var i := FirstColon(s[1..]);
      assert s[..i + 1] == [s[0]] + s[1..][..i];
      i + 1
  }

  /** Stage 3: the user-id and the password, split at the first `:`.
      The code returns a bare `None` (not a pair of `None`s) for empty text
      or text without `:`. */
  function ExtractUserCredentials(decoded: Option<string>): (r: Option<(string, string)>)
    ensures r.Some? <==> decoded.Some? && ':' in decoded.value
    ensures r.Some? ==> ':' !in r.value.0 && r.value.0 + ":" + r.value.1 == decoded.value
  {
    if decoded == None || decoded.value == [] then None
    else if ':' !in decoded.value then None
    else
      var s := decoded.value;
      var i := FirstColon(s);
      assert s == s[..i] + ":" + s[i + 1..];
      Some((s[..i], s[i + 1..]))
  }

  /** The split is the only one possible: a user-id without `:` followed
      by `:` and any password is split back into exactly those two. */
  lemma CredentialsSplitUnique(email: string, password: string)
    requires ':' !in email
    ensures ExtractUserCredentials(Some(email + ":" + password)) == Some((email, password))
  {
    var s := email + ":" + password;
    assert s[|email|] == ':';
    var r := ExtractUserCredentials(Some(s));
    var e := r.value.0;
    assert s == e + ":" + r.value.1;
    assert forall k :: 0 <= k < |email| ==> s[k] == email[k] && s[k] != ':';
    assert forall k :: 0 <= k < |e| ==> s[k] == e[k] && s[k] != ':';
    assert s[|e|] == ':';
    assert |e| == |email|;
    assert e == s[..|e|] == email;
    assert r.value.1 == s[|email| + 1..] == password;
  }

  /** The driver script main_9.py's expectations for text without `:`,
      as the code answers them: a bare `None`. */
  lemma CredentialsWithoutColon()
    ensures ExtractUserCredentials(None) == None
    ensures ExtractUserCredentials(Some("")) == None
    ensures ExtractUserCredentials(Some("Holberton School")) == None
  {
    assert forall k :: 0 <= k < |"Holberton School"| ==> "Holberton School"[k] != ':';
  }

  /** The split examples of main_9.py and main_100.py: the password keeps
      every `:` after the first. */
  lemma CredentialsExamples()
    ensures ExtractUserCredentials(Some("Holberton:School")) == Some(("Holberton", "School"))
    ensures ExtractUserCredentials(Some("bob100@hbtn.io:H0lberton:School:98!"))
            == Some(("bob100@hbtn.io", "H0lberton:School:98!"))
  {
    assert "Holberton:School" == "Holberton" + ":" + "School";
    CredentialsSplitUnique("Holberton", "School");
    assert "bob100@hbtn.io:H0lberton:School:98!" == "bob100@hbtn.io" + ":" + "H0lberton:School:98!";
    CredentialsSplitUnique("bob100@hbtn.io", "H0lberton:School:98!");
  }

  /** The three text stages chained with the intended extraction: a
      header built from a user-id without `:` and any password, encoded as
      UTF-8 and base64, gives back exactly that user-id and password. */
  lemma PipelineRoundTrip(email: string, password: string, bytes: seq<Base64.byte>,
                          utf8: seq<Base64.byte> -> Option<string>)
    requires ':' !in email
    requires bytes != [] && utf8(bytes) == Some(email + ":" + password)
    ensures ExtractBase64(Some(Scheme + Base64.Encode(bytes))) == Some(Base64.Encode(bytes))
    ensures DecodeBase64Header(Some(Base64.Encode(bytes)), utf8) == Ok(Some(email + ":" + password))
    ensures ExtractUserCredentials(Some(email + ":" + password)) == Some((email, password))
  {
    assert Scheme <= Scheme + Base64.Encode(bytes);
    DecodeHeaderRoundTrip(bytes, email + ":" + password, utf8);
    CredentialsSplitUnique(email, password);
  }

  /** A user of the unseen user store: its id, its email and its stored
      password digest. */
  datatype Account = Account(id: string, email: string, passwordDigest: string)

  /** `User.search({'email': email})`: the accounts with that email, in
      store order. */
  function Search(store: seq<Account>, email: string): (r: seq<Account>)
    ensures forall u :: u in r <==> u in store && u.email == email
    ensures forall i :: FirstWithEmail(store, email, i) ==> r != [] && r[0] == store[i]
  {
    if store == [] then []
    else
      var rest := Search(store[1..], email);
      assert forall u :: u in store <==> u == store[0] || u in store[1..];
      assert forall i :: FirstWithEmail(store, email, i) && i > 0 ==> FirstWithEmail(store[1..], email, i - 1);
      if store[0].email == email then [store[0]] + rest else rest
  }

  /** Some account has the email exactly when a first one does. */
  lemma {:induction false} FirstWithEmailExists(store: seq<Account>, email: string, k: int)
    requires 0 <= k < |store| && store[k].email == email
    ensures exists i :: FirstWithEmail(store, email, i)
    decreases k
  {
    if forall j :: 0 <= j < k ==> store[j].email != email {
      assert FirstWithEmail(store, email, k);
    } else {
      var j :| 0 <= j < k && store[j].email == email;
      FirstWithEmailExists(store, email, j);
    }
  }

  /** A non-empty search result starts with the first matching account. */
  lemma SearchHeadIsFirst(store: seq<Account>, email: string)
    requires Search(store, email) != []
    ensures exists i :: FirstWithEmail(store, email, i)
  {
    var u := Search(store, email)[0];
    assert u in Search(store, email);
    var k :| 0 <= k < |store| && store[k] == u;
    FirstWithEmailExists(store, email, k);
  }

  /** `i` is the position of the first account with this email. */
  predicate FirstWithEmail(store: seq<Account>, email: string, i: int) {
    0 <= i < |store| && store[i].email == email
    && forall j :: 0 <= j < i ==> store[j].email != email
  }

  /** Stage 4: the account for a user-id and password.  It exists only
      when both are non-empty, some account has that email, and the first
      such account accepts the password (`is_valid_password`, a parameter
      here). */
  function UserObjectFromCredentials(email: Option<string>, password: Option<string>,
                                     store: seq<Account>, isValidPassword: (Account, string) -> bool)
    : (r: Option<Account>)
    ensures r.Some? <==> email.Some? && email.value != [] && password.Some? && password.value != []
                         && exists i :: FirstWithEmail(store, email.value, i) && isValidPassword(store[i], password.value)
    ensures r.Some? ==> r.value in store && r.value.email == email.value && isValidPassword(r.value, password.value)
    ensures r.Some? ==> forall i :: FirstWithEmail(store, email.value, i) ==> r.value == store[i]
  {
    if email == None || email.value == [] then None
    else if password == None || password.value == [] then None
    else
      var users := Search(store, email.value);
      if |users| == 0 then None
      else
        var user := users[0];
        SearchHeadIsFirst(store, email.value);
        if !isValidPassword(user, password.value) then None
        else Some(user)
  }
}
