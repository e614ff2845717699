/**
 * The input-sanitisation utilities of the front end
 * (`frontend/src/utils/sanitize.js`): HTML escaping, the e-mail and
 * Australian phone checks, string and form-data sanitisation, and the upload
 * check for files.
 */
module Sanitize {
  import opened Js
  import opened Scrub

  // ---------------------------------------------------------------------------
  // escapeHtml

  /** The HTML entity a character becomes; any other character stays. */
  function Entity(c: char): string {
    if c == '&' then "&amp;"
    else if c == '<' then "&lt;"
    else if c == '>' then "&gt;"
    else if c == '"' then "&quot;"
    else if c == '\'' then "&#039;"
    else [c]
  }

  /** The five characters HTML escaping rewrites. */
  predicate IsSpecial(c: char) {
    c == '&' || c == '<' || c == '>' || c == '"' || c == '\''
  }

  /** The markup characters that escaped text never contains. */
  predicate IsMarkup(c: char) {
    c == '<' || c == '>' || c == '"' || c == '\''
  }

  /** Escaping character by character: the reference the chain of
      replacements is proved against. */
  function EscapeChars(s: string): (r: string)
    ensures forall i :: 0 <= i < |r| ==> !IsMarkup(r[i])
    ensures |r| >= |s|
  {
    if s == [] then [] else Entity(s[0]) + EscapeChars(s[1..])
  }

  /** The five global replacements, `&` first so no entity is escaped twice. */
  function EscapeChain(s: string): string {
    ReplaceChar(ReplaceChar(ReplaceChar(ReplaceChar(ReplaceChar(
      s, '&', "&amp;"), '<', "&lt;"), '>', "&gt;"), '"', "&quot;"), '\'', "&#039;")
  }

  lemma EscapeChainConcat(a: string, b: string)
    ensures EscapeChain(a + b) == EscapeChain(a) + EscapeChain(b)
  {
    var a1, b1 := ReplaceChar(a, '&', "&amp;"), ReplaceChar(b, '&', "&amp;");
    ReplaceCharConcat(a, b, '&', "&amp;");
    var a2, b2 := ReplaceChar(a1, '<', "&lt;"), ReplaceChar(b1, '<', "&lt;");
    ReplaceCharConcat(a1, b1, '<', "&lt;");
    var a3, b3 := ReplaceChar(a2, '>', "&gt;"), ReplaceChar(b2, '>', "&gt;");
    ReplaceCharConcat(a2, b2, '>', "&gt;");
    var a4, b4 := ReplaceChar(a3, '"', "&quot;"), ReplaceChar(b3, '"', "&quot;");
    ReplaceCharConcat(a3, b3, '"', "&quot;");
    ReplaceCharConcat(a4, b4, '\'', "&#039;");
  }

  lemma EscapeChainOne(c: char)
    ensures EscapeChain([c]) == Entity(c)
  {
    if IsSpecial(c) {
      EscapeChainSpecial(c);
    } else {
      EscapeChainPlain(c);
    }
  }

  lemma EscapeChainSpecial(c: char)
    requires IsSpecial(c)
    ensures EscapeChain([c]) == Entity(c)
  {
    if c == '&' {
      EscapeChainAmp(c);
    } else if c == '<' {
      EscapeChainLt(c);
    } else if c == '>' {
      EscapeChainGt(c);
    } else if c == '"' {
      EscapeChainQuot(c);
    } else {
      EscapeChainApos(c);
    }
  }

  lemma EscapeChainAmp(c: char)
    requires c == '&'
    ensures EscapeChain([c]) == "&amp;"
  {
    var e := ReplaceChar([c], '&', "&amp;");
    assert e == "&amp;";
    assert '<' !in e && '>' !in e && '"' !in e && '\'' !in e;
  }

  lemma EscapeChainLt(c: char)
    requires c == '<'
    ensures EscapeChain([c]) == "&lt;"
  {
    assert ReplaceChar([c], '&', "&amp;") == [c];
    var e := ReplaceChar([c], '<', "&lt;");
    assert e == "&lt;";
    assert '>' !in e && '"' !in e && '\'' !in e;
  }

  lemma EscapeChainGt(c: char)
    requires c == '>'
    ensures EscapeChain([c]) == "&gt;"
  {
    assert ReplaceChar([c], '&', "&amp;") == [c];
    assert ReplaceChar([c], '<', "&lt;") == [c];
    var e := ReplaceChar([c], '>', "&gt;");
    assert e == "&gt;";
    assert '"' !in e && '\'' !in e;
  }

  lemma EscapeChainQuot(c: char)
    requires c == '"'
    ensures EscapeChain([c]) == "&quot;"
  {
    assert ReplaceChar([c], '&', "&amp;") == [c];
    assert ReplaceChar([c], '<', "&lt;") == [c];
    assert ReplaceChar([c], '>', "&gt;") == [c];
    var e := ReplaceChar([c], '"', "&quot;");
    assert e == "&quot;";
    assert '\'' !in e;
  }

  lemma EscapeChainApos(c: char)
    requires c == '\''
    ensures EscapeChain([c]) == "&#039;"
  {
    assert ReplaceChar([c], '&', "&amp;") == [c];
    assert ReplaceChar([c], '<', "&lt;") == [c];
    assert ReplaceChar([c], '>', "&gt;") == [c];
    assert ReplaceChar([c], '"', "&quot;") == [c];
  }

  lemma EscapeChainPlain(c: char)
    requires !IsSpecial(c)
    ensures EscapeChain([c]) == [c]
  {
  }

  /** The chain of replacements escapes each character on its own. */
  lemma {:induction false} EscapeChainIsPerChar(s: string)
    ensures EscapeChain(s) == EscapeChars(s)
  {
    if s != [] {
      assert s == [s[0]] + s[1..];
      EscapeChainConcat([s[0]], s[1..]);
      EscapeChainOne(s[0]);
      EscapeChainIsPerChar(s[1..]);
    }
  }

  /** `escapeHtml`: a non-string escapes to the empty string. */
  function EscapeHtml(unsafe: Value): (r: string)
    ensures !unsafe.Str? ==> r == ""
    ensures unsafe.Str? ==> r == EscapeChars(unsafe.s)
    ensures forall i :: 0 <= i < |r| ==> !IsMarkup(r[i])
  {
    if unsafe.Str? then
      EscapeChainIsPerChar(unsafe.s);
      EscapeChain(unsafe.s)
    else
      ""
  }

  /** Decoding the five entities, the inverse of escaping. */
  function Unescape(t: string): string
    decreases |t|
  {
    if t == [] then []
    else if t[0] != '&' then [t[0]] + Unescape(t[1..])
    else if |t| >= 5 && t[..5] == "&amp;" then "&" + Unescape(t[5..])
    else if |t| >= 4 && t[..4] == "&lt;" then "<" + Unescape(t[4..])
    else if |t| >= 4 && t[..4] == "&gt;" then ">" + Unescape(t[4..])
    else if |t| >= 6 && t[..6] == "&quot;" then "\"" + Unescape(t[6..])
    else if |t| >= 6 && t[..6] == "&#039;" then "'" + Unescape(t[6..])
    else [t[0]] + Unescape(t[1..])
  }

  /** Decoding undoes the entity of one character. */
  lemma UnescapeEntity(c: char, rest: string)
    ensures Unescape(Entity(c) + rest) == [c] + Unescape(rest)
  {
    if c == '&' {
      assert Entity(c) == "&amp;";
      UnescapeAmp(rest);
    } else if c == '<' {
      assert Entity(c) == "&lt;";
      UnescapeShort("&lt;", c, rest);
    } else if c == '>' {
      assert Entity(c) == "&gt;";
      UnescapeShort("&gt;", c, rest);
    } else if c == '"' {
      assert Entity(c) == "&quot;";
      UnescapeLong("&quot;", c, rest);
    } else if c == '\'' {
      assert Entity(c) == "&#039;";
      UnescapeLong("&#039;", c, rest);
    } else {
      assert Entity(c) == [c];
      UnescapePlain(c, rest);
    }
  }

  lemma UnescapePlain(c: char, rest: string)
    requires c != '&'
    ensures Unescape([c] + rest) == [c] + Unescape(rest)
  {
    var t := [c] + rest;
    assert t[0] == c && t[1..] == rest;
  }

  lemma UnescapeAmp(rest: string)
    ensures Unescape("&amp;" + rest) == "&" + Unescape(rest)
  {
    var t := "&amp;" + rest;
    assert t[..5] == "&amp;" && t[5..] == rest;
  }

  /** A four-character entity, `&lt;` or `&gt;`, decodes to its character. */
  lemma UnescapeShort(e: string, c: char, rest: string)
    requires (e == "&lt;" && c == '<') || (e == "&gt;" && c == '>')
    ensures Unescape(e + rest) == [c] + Unescape(rest)
  {
    var t := e + rest;
    assert t[1] == e[1];
    assert t[..4] == e && t[4..] == rest;
  }

  /** A six-character entity, `&quot;` or `&#039;`, decodes to its character. */
  lemma UnescapeLong(e: string, c: char, rest: string)
    requires (e == "&quot;" && c == '"') || (e == "&#039;" && c == '\'')
    ensures Unescape(e + rest) == [c] + Unescape(rest)
  {
    var t := e + rest;
    assert t[1] == e[1];
    assert t[..6] == e && t[6..] == rest;
  }

  /** Escaping loses nothing: decoding the entities gives the text back. */
  lemma {:induction false} UnescapeEscape(s: string)
    ensures Unescape(EscapeChars(s)) == s
  {
    if s != [] {
      UnescapeEntity(s[0], EscapeChars(s[1..]));
      UnescapeEscape(s[1..]);
      assert s == [s[0]] + s[1..];
    }
  }

  /** Escaping changes a string exactly when it holds a special character. */
  lemma {:induction false} EscapeIdentityIff(s: string)
    ensures EscapeChars(s) == s <==> forall i :: 0 <= i < |s| ==> !IsSpecial(s[i])
  {
    if s != [] {
      EscapeIdentityIff(s[1..]);
      if IsSpecial(s[0]) {
        assert |EscapeChars(s)| > |s|;
      } else {
        assert EscapeChars(s) == [s[0]] + EscapeChars(s[1..]);
        if EscapeChars(s) == s {
          assert EscapeChars(s[1..]) == EscapeChars(s)[1..];
        }
        assert forall i :: 1 <= i < |s| ==> s[i] == s[1..][i - 1];
      }
    }
  }

  // ---------------------------------------------------------------------------
  // isValidEmail

  /** `[^\s@]`. */
  predicate IsEmailChar(c: char) {
    !IsSpace(c) && c != '@'
  }

  /** `^[^\s@]+@[^\s@]+\.[^\s@]+$`: some `@` at `at` and some `.` at `dot`
      split the address into three non-empty runs of e-mail characters. */
  predicate IsValidEmail(email: string)
    ensures IsValidEmail(email) ==> |email| >= 5 && '@' in email && '.' in email
  {
    exists at, dot | 0 < at && at + 1 < dot && dot + 1 < |email| ::
      email[at] == '@' && email[dot] == '.' &&
      forall k :: 0 <= k < |email| && k != at ==> IsEmailChar(email[k])
  }

  function CountChar(s: string, c: char): nat {
    if s == [] then 0 else (if s[0] == c then 1 else 0) + CountChar(s[1..], c)
  }

  lemma {:induction false} CountZero(s: string, c: char)
    ensures CountChar(s, c) == 0 <==> c !in s
  {
    if s != [] {
      CountZero(s[1..], c);
      assert s == [s[0]] + s[1..];
    }
  }

  /** `c` occurs exactly once exactly when its occurrence at `i` is the only one. */
  lemma {:induction false} CountOne(s: string, c: char, i: nat)
    requires i < |s| && s[i] == c
    ensures CountChar(s, c) == 1 <==> forall k :: 0 <= k < |s| && k != i ==> s[k] != c
  {
    CountZero(s[1..], c);
    if i == 0 {
      assert forall k :: 1 <= k < |s| ==> s[k] == s[1..][k - 1];
    } else {
      assert s[1..][i - 1] == c;
      if s[0] != c {
        CountOne(s[1..], c, i - 1);
        assert forall k :: 1 <= k < |s| ==> s[k] == s[1..][k - 1];
      }
    }
  }

  /** `d` has a `.` with at least one character on each side. */
  predicate HasInnerDot(d: string) {
    exists j | 0 < j < |d| - 1 :: d[j] == '.'
  }

  /** The shape the e-mail check accepts, stated without the regular
      expression: no white space, exactly one `@` with text before it, and a
      domain with an inner `.`. */
  predicate EmailShape(s: string) {
    && (forall k :: 0 <= k < |s| ==> !IsSpace(s[k]))
    && CountChar(s, '@') == 1
    && IndexOf(s, '@') > 0
    && HasInnerDot(s[IndexOf(s, '@') + 1..])
  }

  lemma EmailShapeIff(s: string)
    ensures IsValidEmail(s) <==> EmailShape(s)
  {
    if IsValidEmail(s) {
      ValidEmailHasShape(s);
    }
    if EmailShape(s) {
      ShapeIsValidEmail(s);
    }
  }

  lemma ValidEmailHasShape(s: string)
    requires IsValidEmail(s)
    ensures EmailShape(s)
  {
    var at, dot :| 0 < at && at + 1 < dot && dot + 1 < |s| &&
      s[at] == '@' && s[dot] == '.' &&
      forall k :: 0 <= k < |s| && k != at ==> IsEmailChar(s[k]);
    CountOne(s, '@', at);
    assert IndexOf(s, '@') == at;
    var d := s[at + 1..];
    assert d[dot - at - 1] == '.';
  }

  lemma ShapeIsValidEmail(s: string)
    requires EmailShape(s)
    ensures IsValidEmail(s)
  {
    var at := IndexOf(s, '@');
    var d := s[at + 1..];
    var j :| 0 < j < |d| - 1 && d[j] == '.';
    var dot := at + 1 + j;
    assert s[dot] == d[j];
    CountOne(s, '@', at);
    assert forall k :: 0 <= k < |s| && k != at ==> IsEmailChar(s[k]);
    assert 0 < at && at + 1 < dot && dot + 1 < |s| && s[at] == '@' && s[dot] == '.';
  }

  // ---------------------------------------------------------------------------
  // isValidPhone

  /** `[2-9]\d{8}`: a subscriber number whose first digit is not 0 or 1. */
  predicate Subscriber(u: string) {
    |u| == 9 && '2' <= u[0] <= '9' && forall k :: 1 <= k < 9 ==> IsDigit(u[k])
  }

  /** `^(\+61|0)[2-9]\d{8}$`. */
  predicate PhonePattern(t: string) {
    || (|t| == 12 && t[..3] == "+61" && Subscriber(t[3..]))
    || (|t| == 10 && t[0] == '0' && Subscriber(t[1..]))
  }

  /** `isValidPhone`: the pattern tested on the number with its white space
      removed. */
  predicate IsValidPhone(phone: string)
    ensures IsValidPhone(phone) ==> |RemoveSpaces(phone)| == 10 || |RemoveSpaces(phone)| == 12
  {
    PhonePattern(RemoveSpaces(phone))
  }

  /** A white-space character anywhere in the number does not change the
      verdict. */
  lemma SpaceIgnored(a: string, w: char, b: string)
    requires IsSpace(w)
    ensures IsValidPhone(a + [w] + b) <==> IsValidPhone(a + b)
  {
    RemoveSpacesConcat(a + [w], b);
    RemoveSpacesConcat(a, [w]);
    RemoveSpacesConcat(a, b);
    assert RemoveSpaces([w]) == [];
    assert RemoveSpaces(a) + [] == RemoveSpaces(a);
  }

  /** The national prefix `0` and the international prefix `+61` are
      interchangeable. */
  lemma PrefixesAgree(x: string)
    ensures IsValidPhone("0" + x) <==> IsValidPhone("+61" + x)
  {
    RemoveSpacesConcat("0", x);
    RemoveSpacesConcat("+61", x);
    assert RemoveSpaces("0") == "0";
    assert RemoveSpaces("+61") == "+61";
    var u := RemoveSpaces(x);
    assert ("0" + u)[1..] == u;
    assert ("+61" + u)[3..] == u && ("+61" + u)[..3] == "+61";
  }

  /** A subscriber number (a digit from 2 to 9 and eight more digits)
      after `0` or `+61` is accepted, with no white space in it. */
  lemma SubscriberAccepted(u: string)
    requires Subscriber(u)
    ensures IsValidPhone("0" + u) && IsValidPhone("+61" + u)
  {
    var t := "0" + u;
    assert forall i :: 0 <= i < |t| ==> !IsSpace(t[i]) by {
      forall i | 0 <= i < |t| ensures !IsSpace(t[i]) {
        if i > 0 { assert t[i] == u[i - 1]; }
      }
    }
    RemoveSpacesKeeps(t);
    assert t[1..] == u;
    PrefixesAgree(u);
  }

  /** A valid number has ten digits after white space is removed, or `+61`
      and nine. */
  lemma ValidPhoneLength(phone: string)
    requires IsValidPhone(phone)
    ensures var t := RemoveSpaces(phone); (|t| == 10 && t[0] == '0') || (|t| == 12 && t[0] == '+')
  {
    var t := RemoveSpaces(phone);
    if |t| == 12 {
      assert t[0] == t[..3][0];
    }
  }

  /** An accepted number is, once white space is removed, `0` or `+61`
      followed by a subscriber number: with `SubscriberAccepted`, the
      check accepts exactly these. */
  lemma ValidPhoneShape(phone: string)
    requires IsValidPhone(phone)
    ensures exists u :: Subscriber(u) && (RemoveSpaces(phone) == "0" + u || RemoveSpaces(phone) == "+61" + u)
  {
    var t := RemoveSpaces(phone);
    if |t| == 12 && t[..3] == "+61" && Subscriber(t[3..]) {
      assert t == t[..3] + t[3..];
      assert Subscriber(t[3..]) && t == "+61" + t[3..];
    } else {
      assert t == [t[0]] + t[1..];
      assert Subscriber(t[1..]) && t == "0" + t[1..];
    }
  }

  // ---------------------------------------------------------------------------
  // sanitizeString

  /** What `sanitizeString` returns as written: one round of the passes,
      then `trim`. */
  function SanitizedAsWritten(input: Value): (r: string)
    ensures !input.Str? ==> r == ""
    ensures input.Str? ==> |r| <= |input.s|
    ensures r == [] || (!IsSpace(r[0]) && !IsSpace(r[|r| - 1]))
  {
    if input.Str? then Trim(RemoveEach(Passes, input.s)) else ""
  }

  /** `sanitizeString` as written. */
  method SanitizeStringAsWritten(input: Value) returns (r: string)
    ensures r == SanitizedAsWritten(input)
  {
    if !input.Str? {
      return "";
    }
    var sanitized := StripDangerous(input.s);
    r := Trim(sanitized);
  }

  /** One round can leave a `<script>` tag behind. */
  lemma AsWrittenLeavesScriptTag(x: string)
    requires x == "<scr<script>ipt>"
    ensures SanitizedAsWritten(Str(x)) == "<script>"
    ensures MatchLength(Tag("script"), SanitizedAsWritten(Str(x)), 0) > 0
  {
    var y := "<script>";
    assert RemoveEach(Passes, x) == y && MatchLength(Tag("script"), y, 0) > 0 by {
      SinglePassLeavesScriptTag();
    }
    assert Trim(y) == y by {
      assert y[0] == '<' && y[|y| - 1] == '>';
      TrimKeepsInner(y);
    }
  }

  /** `sanitizeString` corrected: the passes repeated until nothing changes,
      then `trim`. No dangerous tag survives. */
  function Sanitized(input: Value): (r: string)
    ensures !input.Str? ==> r == ""
    ensures input.Str? ==> |r| <= |input.s|
    ensures r == [] || (!IsSpace(r[0]) && !IsSpace(r[|r| - 1]))
    ensures forall t, k :: t in DangerousTags && 0 <= k <= |r| ==> MatchLength(Tag(t), r, k) == 0
  {
    if input.Str? then
      var s := Scrubbed(input.s);
      ScrubbedHasNoTag(input.s);
      TrimKeepsTagFree(s);
      TrimLength(s);
      Trim(s)
    else
      ""
  }

  /** Trimming cannot create a dangerous tag. */
  lemma TrimKeepsTagFree(s: string)
    requires forall t, k :: t in DangerousTags && 0 <= k <= |s| ==> MatchLength(Tag(t), s, k) == 0
    ensures forall t, k :: t in DangerousTags && 0 <= k <= |Trim(s)| ==> MatchLength(Tag(t), Trim(s), k) == 0
  {
    var a := TrimIsInfix(s);
    InfixKeepsTagFree(s, Trim(s), a);
  }

  /** A string with no white space at either end is its own trim. */
  lemma TrimKeepsInner(s: string)
    requires s != [] && !IsSpace(s[0]) && !IsSpace(s[|s| - 1])
    ensures Trim(s) == s
  {
    assert TrimStart(s) == s;
    assert TrimEnd(s) == s;
  }

  lemma TrimLength(s: string)
    ensures |Trim(s)| <= |s|
  {
    var a := TrimIsInfix(s);
  }

  /** The corrected `sanitizeString`: the source's passes in a loop that
      stops once a round changes nothing. */
  method SanitizeString(input: Value) returns (r: string)
    ensures r == Sanitized(input)
  {
    if !input.Str? {
      return "";
    }
    var current := input.s;
    var next := StripDangerous(current);
    while next != current
      invariant next == RemoveEach(Passes, current)
      invariant Scrubbed(current) == Scrubbed(input.s)
      decreases |current|
    {
      assert |next| < |current|;
      current := next;
      next := StripDangerous(current);
    }
    r := Trim(current);
  }

  // ---------------------------------------------------------------------------
  // sanitizeFormData

  /** The value `sanitizeFormData` stores for `v`. */
  function Cleaned(v: Value): Value {
    match v
    case Str(_) => Str(SanitizedAsWritten(v))
    case NaN => Num(0.0)
    case _ => v
  }

  /** The body of the loop of `sanitizeFormData` for one value. */
  method CleanValue(value: Value) returns (cleaned: Value)
    ensures value.Str? ==> cleaned == Str(SanitizedAsWritten(value))
    ensures value.NaN? ==> cleaned == Num(0.0)
    ensures !value.Str? && !value.NaN? ==> cleaned == value
  {
    match value {
      case Str(_) =>
        var s := SanitizeStringAsWritten(value);
        cleaned := Str(s);
      case NaN =>
        cleaned := Num(0.0);
      case Num(n) =>
        cleaned := Num(n);
      case Bool(b) =>
        cleaned := Bool(b);
      case _ =>
        cleaned := value;
    }
  }

  /** `sanitizeFormData`: strings are sanitised, `NaN` becomes 0 and every
      other value is copied. */
  method SanitizeFormData(data: Values) returns (sanitized: Values)
    ensures sanitized.Keys == data.Keys
    ensures forall key | key in data && data[key].Str? :: sanitized[key] == Str(SanitizedAsWritten(data[key]))
    ensures forall key | key in data && data[key].NaN? :: sanitized[key] == Num(0.0)
    ensures forall key | key in data && !data[key].Str? && !data[key].NaN? :: sanitized[key] == data[key]
  {
    sanitized := map[];
    var pending := data.Keys;
    while pending != {}
      invariant pending <= data.Keys
      invariant sanitized.Keys == data.Keys - pending
      invariant forall key | key in sanitized :: sanitized[key] == Cleaned(data[key])
      decreases pending
    {
      var key :| key in pending;
      var value := CleanValue(data[key]);
      sanitized := sanitized[key := value];
      pending := pending - {key};
    }
  }

  /** The form clean-up inherits the single round: the counterexample to
      `sanitizeString` comes out of `sanitizeFormData` as a `<script>` tag. */
  lemma FormDataLeavesScriptTag(x: string)
    requires x == "<scr<script>ipt>"
    ensures Cleaned(Str(x)) == Str("<script>")
  {
    AsWrittenLeavesScriptTag(x);
  }

  // ---------------------------------------------------------------------------
  // validateFile

  datatype File = File(name: string, size: int, mimeType: string)

  /** The options object; an absent field takes its default. */
  datatype FileOptions = FileOptions(
    maxSize: Option<int>,
    allowedTypes: Option<seq<string>>,
    allowedExtensions: Option<seq<string>>)

  const DefaultMaxSize: int := 10 * 1024 * 1024
  const DefaultTypes: seq<string> := ["application/pdf"]
  const DefaultExtensions: seq<string> := [".pdf"]

  /** The messages of `validateFile`, carrying the values they print. */
  datatype FileError =
    | NoFileSelected
    | TooLarge(maxSize: int)
    | TypeNotAllowed(allowedTypes: seq<string>)
    | ExtensionNotAllowed(allowedExtensions: seq<string>)

  datatype FileCheck = FileCheck(isValid: bool, errors: seq<FileError>)

  /** The position of each check in the source, which fixes the order of the
      messages. */
  function Rank(e: FileError): nat {
    match e
    case NoFileSelected => 0
    case TooLarge(_) => 1
    case TypeNotAllowed(_) => 2
    case ExtensionNotAllowed(_) => 3
  }

  /** `name.toLowerCase().substring(name.lastIndexOf('.'))`: from the last
      `.` on, lower-cased; with no `.` the start -1 reads as 0 and the whole
      name is the extension. */
  function Extension(name: string): (ext: string)
    ensures |ext| <= |name| && ext == LowerString(name)[|name| - |ext|..]
    ensures '.' !in name ==> ext == LowerString(name)
  {
    var i := LastIndexOf(name, '.');
    LowerString(name)[if i < 0 then 0 else i..]
  }

  /** With a `.` in the name, the extension is the lower-cased text from the
      last `.` on: it starts with `.` and holds no other. */
  lemma ExtensionFromLastDot(name: string)
    requires '.' in name
    ensures var ext := Extension(name); |ext| >= 1 && ext[0] == '.' && '.' !in ext[1..]
  {
    var i := LastIndexOf(name, '.');
    var ext := Extension(name);
    assert |ext| == |name| - i;
    forall k | 1 <= k < |ext| ensures ext[k] != '.' {
      assert ext[k] == Lower(name[i + k]);
      assert name[i + k] == name[i + 1..][k - 1];
    }
  }

  /** `validateFile`: the file is accepted exactly when no check fails; the
      failing checks are reported in source order. */
  method ValidateFile(file: Option<File>, options: FileOptions) returns (result: FileCheck)
    ensures result.isValid <==> result.errors == []
    ensures file.None? ==> result.errors == [NoFileSelected]
    ensures file.Some? ==> NoFileSelected !in result.errors
    ensures file.Some? ==>
      ((TooLarge(options.maxSize.GetOr(DefaultMaxSize)) in result.errors) <==>
       (file.value.size > options.maxSize.GetOr(DefaultMaxSize)))
    ensures file.Some? ==>
      ((TypeNotAllowed(options.allowedTypes.GetOr(DefaultTypes)) in result.errors) <==>
       (file.value.mimeType !in options.allowedTypes.GetOr(DefaultTypes)))
    ensures file.Some? ==>
      ((ExtensionNotAllowed(options.allowedExtensions.GetOr(DefaultExtensions)) in result.errors) <==>
       (Extension(file.value.name) !in options.allowedExtensions.GetOr(DefaultExtensions)))
    ensures forall i, j :: 0 <= i < j < |result.errors| ==> Rank(result.errors[i]) < Rank(result.errors[j])
    ensures file.Some? ==> (result.errors ==
      Part(file.value.size > options.maxSize.GetOr(DefaultMaxSize), TooLarge(options.maxSize.GetOr(DefaultMaxSize)))
      + Part(file.value.mimeType !in options.allowedTypes.GetOr(DefaultTypes), TypeNotAllowed(options.allowedTypes.GetOr(DefaultTypes)))
      + Part(Extension(file.value.name) !in options.allowedExtensions.GetOr(DefaultExtensions),
             ExtensionNotAllowed(options.allowedExtensions.GetOr(DefaultExtensions))))
    ensures file.Some? ==> (result.isValid <==>
      && file.value.size <= options.maxSize.GetOr(DefaultMaxSize)
      && file.value.mimeType in options.allowedTypes.GetOr(DefaultTypes)
      && Extension(file.value.name) in options.allowedExtensions.GetOr(DefaultExtensions))
  {
    var maxSize := options.maxSize.GetOr(DefaultMaxSize);
    var allowedTypes := options.allowedTypes.GetOr(DefaultTypes);
    var allowedExtensions := options.allowedExtensions.GetOr(DefaultExtensions);
    var errors: seq<FileError> := [];
    if file.None? {
      errors := errors + [NoFileSelected];
      return FileCheck(false, errors);
    }
    var f := file.value;
    if f.size > maxSize {
      errors := errors + [TooLarge(maxSize)];
    }
    ghost var first := errors;
    assert first == Part(f.size > maxSize, TooLarge(maxSize));
    if !Includes(allowedTypes, f.mimeType) {
      errors := errors + [TypeNotAllowed(allowedTypes)];
    }
    ghost var second := errors;
    assert second == first + Part(f.mimeType !in allowedTypes, TypeNotAllowed(allowedTypes));
    var extension := Extension(f.name);
    if !Includes(allowedExtensions, extension) {
      errors := errors + [ExtensionNotAllowed(allowedExtensions)];
    }
    assert errors == second + Part(extension !in allowedExtensions, ExtensionNotAllowed(allowedExtensions));
    assert errors == Part(f.size > maxSize, TooLarge(maxSize))
      + Part(f.mimeType !in allowedTypes, TypeNotAllowed(allowedTypes))
      + Part(extension !in allowedExtensions, ExtensionNotAllowed(allowedExtensions));
    ErrorsInOrder(f.size > maxSize, f.mimeType !in allowedTypes, extension !in allowedExtensions,
      maxSize, allowedTypes, allowedExtensions);
    result := FileCheck(|errors| == 0, errors);
  }

  /** `[e]` when `failed`, else nothing: what one check pushes. */
  function Part(failed: bool, e: FileError): seq<FileError> {
    if failed then [e] else []
  }

  /** An upper-case `.PDF` name passes the default extension check. */
  lemma UpperPdfAccepted(stem: string, tail: string)
    requires tail == "PDF"
    ensures Extension(stem + "." + tail) == ".pdf" && Extension(stem + "." + tail) in DefaultExtensions
  {
    ExtensionOfSuffix(stem, tail);
    LowerPdf(tail);
  }

  lemma LowerPdf(tail: string)
    requires tail == "PDF"
    ensures "." + LowerString(tail) == ".pdf"
  {
    var l := LowerString(tail);
    assert l[0] == 'p' && l[1] == 'd' && l[2] == 'f';
    assert l == "pdf";
  }

  /** The three checks of a selected file each report exactly when they
      fail, in source order, and never report a missing file. */
  lemma ErrorsInOrder(tooLarge: bool, badType: bool, badExtension: bool,
                      maxSize: int, types: seq<string>, extensions: seq<string>)
    ensures var errs := Part(tooLarge, TooLarge(maxSize)) + Part(badType, TypeNotAllowed(types))
                        + Part(badExtension, ExtensionNotAllowed(extensions));
      && (errs == [] <==> !tooLarge && !badType && !badExtension)
      && NoFileSelected !in errs
      && (TooLarge(maxSize) in errs <==> tooLarge)
      && (TypeNotAllowed(types) in errs <==> badType)
      && (ExtensionNotAllowed(extensions) in errs <==> badExtension)
      && (forall i, j :: 0 <= i < j < |errs| ==> Rank(errs[i]) < Rank(errs[j]))
  {
    var errs := Part(tooLarge, TooLarge(maxSize)) + Part(badType, TypeNotAllowed(types))
                + Part(badExtension, ExtensionNotAllowed(extensions));
    forall e | e in errs
      ensures || (e == TooLarge(maxSize) && tooLarge)
              || (e == TypeNotAllowed(types) && badType)
              || (e == ExtensionNotAllowed(extensions) && badExtension)
    {
    }
    assert tooLarge ==> errs[0] == TooLarge(maxSize);
    assert badType ==> errs[if tooLarge then 1 else 0] == TypeNotAllowed(types);
    assert badExtension ==> errs[|errs| - 1] == ExtensionNotAllowed(extensions);
  }

  /** A `.` with no `.` after it is the last one. */
  lemma LastDotAt(name: string, p: nat)
    requires p < |name| && name[p] == '.' && '.' !in name[p + 1..]
    ensures LastIndexOf(name, '.') == p
  {
  }

  /** The extension of `stem.tail` is `.` and the lower-cased `tail`, so
      `report.PDF` passes the default `.pdf` check. */
  lemma ExtensionOfSuffix(stem: string, tail: string)
    requires '.' !in tail
    ensures Extension(stem + "." + tail) == "." + LowerString(tail)
  {
    var u := "." + tail;
    var name := stem + u;
    assert stem + "." + tail == name by {}
    assert LastIndexOf(name, '.') == |stem| by {
      assert name[|stem|] == '.' && name[|stem| + 1..] == tail;
      LastDotAt(name, |stem|);
    }
    assert LowerString(name)[|stem|..] == LowerString(u) by { LowerStringSuffix(stem, u); }
    assert LowerString(u) == "." + LowerString(tail) by {}
  }
}
