/** The pure part of the device routes: the input sanitiser, the MAC address
    pattern, the path-id pattern and the validation chain of the create
    request (backend/routes/devices.js). */
module DeviceValidation {

  import opened JsString

  /** A field of the JSON request body. `NonText` stands for any value that is
      not a string (a number, a boolean, null, a missing field); `shown` is the
      text the validation library derives from it before testing it. */
  datatype BodyValue = Text(s: string) | NonText(shown: string)

  /** The text the validators test. */
  function Shown(v: BodyValue): string
  {
    match v
    case Text(s) => s
    case NonText(t) => t
  }

  // ---------------------------------------------------------------- sanitizeInput

  /** The characters the sanitiser deletes. */
  predicate IsMarkup(c: char)
  {
    c == '<' || c == '>' || c == '"' || c == '\'' || c == '&'
  }

  /** No markup character is whitespace, so trimming never removes one. */
  lemma MarkupIsNotWhitespace(c: char)
    requires IsMarkup(c)
    ensures !IsWhitespace(c)
  {
  }

  /** Deletes every markup character, keeping the others in order. */
  function RemoveMarkup(s: string): (r: string)
    ensures |r| <= |s|
    ensures forall k :: 0 <= k < |r| ==> !IsMarkup(r[k])
    ensures forall c :: c in r <==> c in s && !IsMarkup(c)
    ensures (forall k :: 0 <= k < |s| ==> !IsMarkup(s[k])) ==> r == s
    ensures (forall k :: 0 <= k < |s| ==> IsMarkup(s[k])) ==> r == []
  {
    if s == [] then []
    else
      var rest := RemoveMarkup(s[1..]);
      assert s == [s[0]] + s[1..];
      if IsMarkup(s[0]) then rest else [s[0]] + rest
  }

  /** Deletion keeps every other character as many times as it occurs. */
  lemma {:induction false} RemoveMarkupCounts(s: string)
    ensures forall c :: multiset(RemoveMarkup(s))[c] == if IsMarkup(c) then 0 else multiset(s)[c]
    decreases |s|
  {
    if s != [] {
      RemoveMarkupCounts(s[1..]);
      assert s == [s[0]] + s[1..];
      assert multiset(s) == multiset{s[0]} + multiset(s[1..]);
    }
  }

  /** Deletion decides the first character on its own. */
  lemma RemoveMarkupCons(c: char, s: string)
    ensures RemoveMarkup([c] + s) == (if IsMarkup(c) then [] else [c]) + RemoveMarkup(s)
  {
    assert ([c] + s)[0] == c && ([c] + s)[1..] == s;
  }

  /** Deletion works character by character: it commutes with
      concatenation, so the kept characters stay in their order. */
  lemma {:induction false} RemoveMarkupAppend(a: string, b: string)
    ensures RemoveMarkup(a + b) == RemoveMarkup(a) + RemoveMarkup(b)
    decreases |a|
  {
    if a == [] {
      assert a + b == b;
    } else {
      var rest := a[1..];
      var kept := if IsMarkup(a[0]) then [] else [a[0]];
      calc {
        RemoveMarkup(a + b);
        { assert a + b == [a[0]] + (rest + b) by { assert a == [a[0]] + rest; } }
        RemoveMarkup([a[0]] + (rest + b));
        { RemoveMarkupCons(a[0], rest + b); }
        kept + RemoveMarkup(rest + b);
        { RemoveMarkupAppend(rest, b); }
        kept + (RemoveMarkup(rest) + RemoveMarkup(b));
        (kept + RemoveMarkup(rest)) + RemoveMarkup(b);
        { assert a == [a[0]] + rest; RemoveMarkupCons(a[0], rest); }
        RemoveMarkup(a) + RemoveMarkup(b);
      }
    }
  }

  /** `sanitizeInput`: the empty string for a non-string; otherwise the
      trimmed text without markup characters. Nothing but whitespace and
      markup is ever dropped. */
  function Sanitize(v: BodyValue): (r: string)
    ensures v.NonText? ==> r == ""
    ensures |r| <= |Shown(v)|
    ensures forall k :: 0 <= k < |r| ==> !IsMarkup(r[k])
    ensures forall c :: c in r ==> c in Shown(v)
    ensures v.Text? ==> forall k :: 0 <= k < |v.s| && !IsWhitespace(v.s[k]) && !IsMarkup(v.s[k]) ==> v.s[k] in r
    ensures v.Text? ==> CountedLength(r) <= CountedLength(v.s)
  {
    match v
    case NonText(_) => ""
    case Text(s) =>
      TrimCountsNoMore(s);
      RemoveMarkupCountsNoMore(Trim(s));
      RemoveMarkup(Trim(s))
  }

  lemma SanitizeLessThanA()
    ensures Sanitize(Text("< a")) == " a"
  {
    var s := "< a";
    assert !IsWhitespace(s[0]) && !IsWhitespace(s[2]);
    TrimKeepsTrimmed(s);
    assert RemoveMarkup(s) == " a" by {
      assert s[1..] == " a";
      assert " a"[1..] == "a";
      assert "a"[1..] == "";
    }
  }

  lemma SanitizeSpaceA()
    ensures Sanitize(Text(" a")) == "a"
  {
    var s := " a";
    assert IsWhitespace(s[0]) && !IsWhitespace(s[1]);
    assert LeadingWhitespace(s) == 1;
    assert Trim(s) == "a";
    assert RemoveMarkup("a") == "a" by {
      assert "a"[1..] == "";
    }
  }

  /** Sanitising is not idempotent: trimming happens before deletion, so a
      deletion can expose whitespace that a second pass trims. */
  lemma SanitizeNotIdempotent()
    ensures Sanitize(Text(Sanitize(Text("< a")))) != Sanitize(Text("< a"))
  {
    SanitizeLessThanA();
    SanitizeSpaceA();
  }

  // ---------------------------------------------------------------- macRegex

  predicate IsHexDigit(c: char)
  {
    '0' <= c <= '9' || 'a' <= c <= 'f' || 'A' <= c <= 'F'
  }

  predicate IsSeparator(c: char)
  {
    c == ':' || c == '-'
  }

  /** `([0-9A-Fa-f]{2}[:-]){n}` matching all of `s`, group by group as the
      regular expression reads. */
  predicate RepeatedGroups(s: string, n: nat)
    decreases n
  {
    if n == 0 then s == []
    else |s| >= 3 && IsHexDigit(s[0]) && IsHexDigit(s[1]) && IsSeparator(s[2]) && RepeatedGroups(s[3..], n - 1)
  }

  /** `macRegex.test(s)`: five hex pairs each followed by a separator, then a
      final hex pair, anchored at both ends. */
  predicate MatchesMacRegex(s: string)
  {
    |s| >= 2 && RepeatedGroups(s[..|s| - 2], 5) && IsHexDigit(s[|s| - 2]) && IsHexDigit(s[|s| - 1])
  }

  /** What position `k` of an address may hold: a separator after every
      pair, a hex digit elsewhere. */
  predicate FitsPosition(c: char, k: int)
  {
    if k % 3 == 2 then IsSeparator(c) else IsHexDigit(c)
  }

  /** The accepted addresses described position by position: 17 characters,
      each separator chosen on its own. */
  predicate IsMacShape(s: string)
  {
    |s| == 17 && forall k :: 0 <= k < |s| ==> FitsPosition(s[k], k)
  }

  lemma {:induction false} RepeatedGroupsShape(s: string, n: nat)
    ensures RepeatedGroups(s, n) <==> |s| == 3 * n && forall k :: 0 <= k < |s| ==> FitsPosition(s[k], k)
    decreases n
  {
    if n > 0 && |s| >= 3 {
      RepeatedGroupsShape(s[3..], n - 1);
      assert forall k :: 3 <= k < |s| ==> s[k] == s[3..][k - 3] && (k % 3 == (k - 3) % 3);
      if forall k :: 0 <= k < |s| ==> FitsPosition(s[k], k) {
        assert FitsPosition(s[0], 0) && FitsPosition(s[1], 1) && FitsPosition(s[2], 2);
      }
    }
  }

  /** The regular expression accepts exactly the position-by-position shape. */
  lemma MacRegexIsShape(s: string)
    ensures MatchesMacRegex(s) <==> IsMacShape(s)
  {
    if |s| >= 2 {
      RepeatedGroupsShape(s[..|s| - 2], 5);
      if IsMacShape(s) {
        assert FitsPosition(s[15], 15) && FitsPosition(s[16], 16);
      }
    } else {
      assert !IsMacShape(s);
    }
  }

  /** Separators are chosen independently: a mixed address is accepted. */
  lemma MixedSeparatorsAccepted()
    ensures MatchesMacRegex("aa:BB-cc:DD-ee:FF")
  {
    var s := "aa:BB-cc:DD-ee:FF";
    assert IsMacShape(s) by {
      forall k | 0 <= k < |s| ensures FitsPosition(s[k], k) {
      }
    }
    MacRegexIsShape(s);
  }

  /** Upper-casing an accepted address keeps it accepted and leaves every
      separator as it was: only letter case is normalised. */
  lemma UpperCaseKeepsMacShape(s: string)
    requires IsMacShape(s)
    ensures IsMacShape(AsciiUpperCase(s))
    ensures forall k :: 0 <= k < |s| && k % 3 == 2 ==> AsciiUpperCase(s)[k] == s[k]
  {
    var u := AsciiUpperCase(s);
    forall k | 0 <= k < |u| ensures FitsPosition(u[k], k) {
      assert FitsPosition(s[k], k);
    }
  }

  /** Upper-casing makes an address and its lower-case spelling the same
      stored text, so the uniqueness check treats them as one address. */
  lemma CaseVariantsCollide()
    ensures AsciiUpperCase("aa:bb:cc:dd:ee:ff") == AsciiUpperCase("AA:BB:CC:DD:EE:FF") == "AA:BB:CC:DD:EE:FF"
  {
    var lower, upper := "aa:bb:cc:dd:ee:ff", "AA:BB:CC:DD:EE:FF";
    forall k | 0 <= k < |lower| ensures AsciiUpperCase(lower)[k] == upper[k] {
    }
    forall k | 0 <= k < |upper| ensures AsciiUpperCase(upper)[k] == upper[k] {
    }
  }

  // ---------------------------------------------------------------- the create request

  const NameMinLength := 1
  const NameMaxLength := 100
  const NameMessage := "Name must be between 1 and 100 characters"
  const MacMessage := "Invalid MAC address format (use XX:XX:XX:XX:XX:XX)"

  /** One entry of the validation error list: the field and its message. */
  datatype FieldError = FieldError(path: string, msg: string)

  datatype CreateBody = CreateBody(name: BodyValue, mac: BodyValue)

  /** The outcome of the validation chain: the sanitised fields, or the list
      of field errors in the order the chain declares the fields. */
  datatype Validated = Accepted(name: string, mac: string) | Rejected(errors: seq<FieldError>)

  /** U+FE0E and U+FE0F, the variation selectors the length check skips. */
  predicate IsVariationSelector(c: char)
  {
    c == '\U{FE0E}' || c == '\U{FE0F}'
  }

  /** The length the validation library's `isLength` measures: one per code
      point (a surrogate pair is one), variation selectors not counted. */
  function CountedLength(s: string): (n: nat)
    ensures n <= |s|
    ensures n == |s| <==> forall k :: 0 <= k < |s| ==> !IsVariationSelector(s[k])
    ensures (forall k :: 0 <= k < |s| ==> IsVariationSelector(s[k])) ==> n == 0
  {
    if s == [] then 0
    else
      assert forall k :: 1 <= k < |s| ==> s[k] == s[1..][k - 1];
      (if IsVariationSelector(s[0]) then 0 else 1) + CountedLength(s[1..])
  }

  lemma {:induction false} CountedLengthAppend(a: string, b: string)
    ensures CountedLength(a + b) == CountedLength(a) + CountedLength(b)
    decreases |a|
  {
    if a != [] {
      CountedLengthAppend(a[1..], b);
      assert (a + b)[0] == a[0] && (a + b)[1..] == a[1..] + b;
    } else {
      assert a + b == b;
    }
  }

  /** Deletion never adds to the counted length. */
  lemma {:induction false} RemoveMarkupCountsNoMore(s: string)
    ensures CountedLength(RemoveMarkup(s)) <= CountedLength(s)
    decreases |s|
  {
    if s != [] {
      RemoveMarkupCountsNoMore(s[1..]);
      var rest := RemoveMarkup(s[1..]);
      assert ([s[0]] + rest)[0] == s[0] && ([s[0]] + rest)[1..] == rest;
    }
  }

  /** Trimming keeps an infix, so it never adds to the counted length. */
  lemma TrimCountsNoMore(s: string)
    ensures CountedLength(Trim(s)) <= CountedLength(s)
  {
    var i, r := LeadingWhitespace(s), Trim(s);
    assert s == s[..i] + r + s[i + |r|..];
    CountedLengthAppend(s[..i], r);
    CountedLengthAppend(s[..i] + r, s[i + |r|..]);
  }

  /** The length check, applied to the raw value before it is sanitised. */
  predicate NameLengthOk(v: BodyValue)
  {
    NameMinLength <= CountedLength(Shown(v)) <= NameMaxLength
  }

  /** Variation selectors are not counted, so a name of acceptable length
      passes with any number of them appended, however long that makes it. */
  lemma SelectorsPassLengthCheck(base: string, selectors: string)
    requires NameMinLength <= |base| <= NameMaxLength
    requires forall k :: 0 <= k < |base| ==> !IsVariationSelector(base[k])
    requires forall k :: 0 <= k < |selectors| ==> IsVariationSelector(selectors[k])
    ensures NameLengthOk(Text(base + selectors))
    ensures |base + selectors| == |base| + |selectors|
  {
    CountedLengthAppend(base, selectors);
  }

  predicate MacOk(v: BodyValue)
  {
    v.Text? && MatchesMacRegex(v.s)
  }

  /** The validation chain of the create request: both checks run, and the
      request is accepted only when neither reports an error. */
  function ValidateCreate(body: CreateBody): (r: Validated)
    ensures r.Accepted? <==> NameLengthOk(body.name) && MacOk(body.mac)
  {
    var nameErrors := if NameLengthOk(body.name) then [] else [FieldError("name", NameMessage)];
    var macErrors := if MacOk(body.mac) then [] else [FieldError("mac", MacMessage)];
    if nameErrors + macErrors == [] then Accepted(Sanitize(body.name), AsciiUpperCase(body.mac.s))
    else Rejected(nameErrors + macErrors)
  }

  /** What an accepted request carries: the sanitised name, no longer than
      the length check allowed, and the upper-cased address, still of the
      accepted shape. */
  lemma AcceptedFields(body: CreateBody)
    requires ValidateCreate(body).Accepted?
    ensures var r := ValidateCreate(body);
            && r.name == Sanitize(body.name) && CountedLength(r.name) <= NameMaxLength
            && r.mac == AsciiUpperCase(body.mac.s) && IsMacShape(r.mac)
            && AsciiUpperCase(r.mac) == r.mac
  {
    MacRegexIsShape(body.mac.s);
    UpperCaseKeepsMacShape(body.mac.s);
    UpperCaseIdempotent(body.mac.s);
  }

  /** What a rejected request reports: one error per failed field, the name
      first, each with its message. */
  lemma RejectedErrors(body: CreateBody)
    requires ValidateCreate(body).Rejected?
    ensures var e := ValidateCreate(body).errors;
            && 1 <= |e| <= 2
            && (FieldError("name", NameMessage) in e <==> !NameLengthOk(body.name))
            && (FieldError("mac", MacMessage) in e <==> !MacOk(body.mac))
            && e[0].path == (if NameLengthOk(body.name) then "mac" else "name")
            && |e| == (if NameLengthOk(body.name) then 0 else 1) + (if MacOk(body.mac) then 0 else 1)
            && (!NameLengthOk(body.name) ==> e[0] == FieldError("name", NameMessage))
            && (!MacOk(body.mac) ==> e[|e| - 1] == FieldError("mac", MacMessage))
  {
  }

  /** An address already in canonical form passes the check and upper-casing
      leaves it as it is. */
  lemma CanonicalMacAccepted(mac: string)
    requires IsMacShape(mac)
    requires forall k :: 0 <= k < |mac| ==> !IsAsciiLower(mac[k])
    ensures MacOk(Text(mac)) && AsciiUpperCase(mac) == mac
  {
    MacRegexIsShape(mac);
  }

  /** A name without whitespace or markup is stored as given. */
  lemma PlainNameKept(name: string)
    requires forall k :: 0 <= k < |name| ==> !IsWhitespace(name[k]) && !IsMarkup(name[k])
    ensures Sanitize(Text(name)) == name
  {
    TrimKeepsTrimmed(name);
  }

  /** A name of acceptable length without whitespace, markup or variation
      selectors, with an
      address already in canonical form, is accepted unchanged. */
  lemma CanonicalBodyAccepted(name: string, mac: string)
    requires NameMinLength <= |name| <= NameMaxLength
    requires forall k :: 0 <= k < |name| ==> !IsWhitespace(name[k]) && !IsMarkup(name[k]) && !IsVariationSelector(name[k])
    requires IsMacShape(mac)
    requires forall k :: 0 <= k < |mac| ==> !IsAsciiLower(mac[k])
    ensures ValidateCreate(CreateBody(Text(name), Text(mac))) == Accepted(name, mac)
  {
    CanonicalMacAccepted(mac);
    PlainNameKept(name);
  }

  /** A name made of markup alone passes the length check and is stored
      empty. */
  lemma MarkupOnlyNameStoredEmpty(name: string, mac: string)
    requires NameMinLength <= |name| <= NameMaxLength
    requires forall k :: 0 <= k < |name| ==> IsMarkup(name[k])
    requires IsMacShape(mac)
    ensures ValidateCreate(CreateBody(Text(name), Text(mac))).Accepted?
    ensures ValidateCreate(CreateBody(Text(name), Text(mac))).name == ""
  {
    var body := CreateBody(Text(name), Text(mac));
    MacRegexIsShape(mac);
    assert NameLengthOk(body.name) && MacOk(body.mac);
    AcceptedFields(body);
    assert Trim(name) == name by {
      MarkupIsNotWhitespace(name[0]);
      MarkupIsNotWhitespace(name[|name| - 1]);
      TrimKeepsTrimmed(name);
    }
  }

  // ---------------------------------------------------------------- the path id

  predicate IsAsciiDigit(c: char)
  {
    '0' <= c <= '9'
  }

  /** `/^\d+$/.test(id)`: one or more ASCII digits and nothing else. */
  predicate IsDecimalId(s: string)
  {
    |s| >= 1 && forall k :: 0 <= k < |s| ==> IsAsciiDigit(s[k])
  }

  /** The integer the store compares a digit string with (leading zeros
      allowed, so "007" names id 7). */
  function DecimalValue(s: string): nat
    requires forall k :: 0 <= k < |s| ==> IsAsciiDigit(s[k])
  {
    if s == [] then 0
    else
      assert IsAsciiDigit(s[|s| - 1]);
      DecimalValue(s[..|s| - 1]) * 10 + (s[|s| - 1] as int - '0' as int)
  }

  /** Leading zeros do not change the id a path names. */
  lemma {:induction false} LeadingZeroIgnored(s: string)
    requires forall k :: 0 <= k < |s| ==> IsAsciiDigit(s[k])
    ensures DecimalValue(['0'] + s) == DecimalValue(s)
    decreases |s|
  {
    if s != [] {
      var z := ['0'] + s;
      assert z[..|z| - 1] == ['0'] + s[..|s| - 1];
      LeadingZeroIgnored(s[..|s| - 1]);
    } else {
      assert (['0'] + s)[..0] == [];
    }
  }

  /** The decimal text of an id, as a client puts it in the request path: it
      passes the id check and resolves back to the id. */
  function DecimalString(n: nat): (r: string)
    ensures IsDecimalId(r)
    ensures DecimalValue(r) == n
  {
    var last := [('0' as int + n % 10) as char];
    if n < 10 then last
    else
      var r := DecimalString(n / 10) + last;
      assert r[..|r| - 1] == DecimalString(n / 10);
      r
  }
}
