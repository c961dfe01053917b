/** The small string helpers of js/wallet-app.js: trimming and case mapping as
    the browser does them, the canonical credential type, the session id taken
    from query parameters, the PIN normalisation, the Dutch list phrasing and the
    label of an inbox entry's source. */
module Text {
  import opened Wrappers

  // ---------------------------------------------------------------------------
  // Characters
  // ---------------------------------------------------------------------------

  /** The characters JavaScript's `trim` removes and the regular-expression class
      `\s` matches: ECMAScript WhiteSpace and LineTerminator. */
  predicate IsSpace(c: char) {
    || c == ' ' || c == '\t' || c == '\n' || c == '\r' || c == '\U{000B}' || c == '\U{000C}'
    || c == '\U{00A0}' || c == '\U{1680}' || ('\U{2000}' <= c <= '\U{200A}')
    || c == '\U{2028}' || c == '\U{2029}' || c == '\U{202F}' || c == '\U{205F}'
    || c == '\U{3000}' || c == '\U{FEFF}'
  }

  /** What the character class `[\s-]` matches. */
  predicate IsSeparator(c: char) { IsSpace(c) || c == '-' }

  predicate IsLower(c: char) { 'a' <= c <= 'z' }

  predicate IsUpper(c: char) { 'A' <= c <= 'Z' }

  /** What `\d` matches; `\D` is its complement. */
  predicate IsDigit(c: char) { '0' <= c <= '9' }

  function UpperChar(c: char): char {
    if IsLower(c) then (c as int - 32) as char else c
  }

  function LowerChar(c: char): char {
    if IsUpper(c) then (c as int + 32) as char else c
  }

  /** `toUpperCase`, on the ASCII letters: no lower-case letter is left, each
      character is the same letter up to case, and anything that is not a
      lower-case letter stays as it is. */
  function Upper(s: string): (r: string)
    ensures |r| == |s|
    ensures forall i :: 0 <= i < |s| ==> !IsLower(r[i]) && LowerChar(r[i]) == LowerChar(s[i])
    ensures forall i :: 0 <= i < |s| && !IsLower(s[i]) ==> r[i] == s[i]
  {
    seq(|s|, i requires 0 <= i < |s| => UpperChar(s[i]))
  }

  /** `toLowerCase`, on the ASCII letters: no upper-case letter is left, each
      character is the same letter up to case, and anything that is not an
      upper-case letter stays as it is. */
  function Lower(s: string): (r: string)
    ensures |r| == |s|
    ensures forall i :: 0 <= i < |s| ==> !IsUpper(r[i]) && UpperChar(r[i]) == UpperChar(s[i])
    ensures forall i :: 0 <= i < |s| && !IsUpper(s[i]) ==> r[i] == s[i]
  {
    seq(|s|, i requires 0 <= i < |s| => LowerChar(s[i]))
  }

  /** Upper-casing an upper-cased string changes nothing. */
  lemma UpperIdempotent(s: string)
    ensures Upper(Upper(s)) == Upper(s)
  {
  }

  // ---------------------------------------------------------------------------
  // Trimming
  // ---------------------------------------------------------------------------

  /** Drops leading whitespace. */
  function TrimStart(s: string): (r: string)
    ensures |r| <= |s|
  {
    if s != [] && IsSpace(s[0]) then TrimStart(s[1..]) else s
  }

  /** What TrimStart drops is whitespace, and it stops at the first other character. */
  lemma {:induction false} TrimStartSpec(s: string)
    ensures var r := TrimStart(s);
      && r == s[|s| - |r|..]
      && (forall i :: 0 <= i < |s| - |r| ==> IsSpace(s[i]))
      && (r == [] || !IsSpace(r[0]))
  {
    if s != [] && IsSpace(s[0]) {
      TrimStartSpec(s[1..]);
    }
  }

  /** Drops trailing whitespace. */
  function TrimEnd(s: string): (r: string)
    ensures |r| <= |s|
  {
    if s != [] && IsSpace(s[|s| - 1]) then TrimEnd(s[..|s| - 1]) else s
  }

  /** What TrimEnd drops is whitespace, and it stops at the last other character. */
  lemma {:induction false} TrimEndSpec(s: string)
    ensures var r := TrimEnd(s);
      && r == s[..|r|]
      && (forall i :: |r| <= i < |s| ==> IsSpace(s[i]))
      && (r == [] || !IsSpace(r[|r| - 1]))
  {
    if s != [] && IsSpace(s[|s| - 1]) {
      TrimEndSpec(s[..|s| - 1]);
    }
  }

  /** `String.prototype.trim`: the result neither starts nor ends with
      whitespace, it is empty exactly when the input is all whitespace, and a
      string without whitespace is left alone. */
  function Trim(s: string): (r: string)
    ensures |r| <= |s|
    ensures r == [] || (!IsSpace(r[0]) && !IsSpace(r[|r| - 1]))
    ensures r == [] <==> forall i :: 0 <= i < |s| ==> IsSpace(s[i])
    ensures (forall i :: 0 <= i < |s| ==> !IsSpace(s[i])) ==> r == s
  {
    var t := TrimStart(s);
    TrimStartSpec(s);
    var r := TrimEnd(t);
    TrimEndSpec(t);
    assert r == [] ==> t == [];
    assert r != [] ==> r[0] == t[0];
    r
  }

  /** Trimming a trimmed string changes nothing. */
  lemma TrimIdempotent(s: string)
    ensures Trim(Trim(s)) == Trim(s)
  {
    var r := Trim(s);
    TrimStartSpec(r);
    TrimEndSpec(r);
    assert TrimStart(r) == r;
    assert TrimEnd(r) == r;
  }

  /** Upper-casing a character keeps it whitespace or not whitespace. */
  lemma UpperCharSpace(c: char)
    ensures IsSpace(UpperChar(c)) <==> IsSpace(c)
  {
  }

  /** Upper-casing leaves whitespace alone, so it does not matter whether a
      string is trimmed before or after it is upper-cased. */
  lemma {:induction false} TrimStartUpper(s: string)
    ensures TrimStart(Upper(s)) == Upper(TrimStart(s))
    decreases |s|
  {
    if s != [] {
      assert Upper(s)[0] == UpperChar(s[0]);
      UpperCharSpace(s[0]);
      assert Upper(s)[1..] == Upper(s[1..]);
      if IsSpace(s[0]) {
        TrimStartUpper(s[1..]);
      }
    }
  }

  lemma {:induction false} TrimEndUpper(s: string)
    ensures TrimEnd(Upper(s)) == Upper(TrimEnd(s))
    decreases |s|
  {
    if s != [] {
      assert Upper(s)[|s| - 1] == UpperChar(s[|s| - 1]);
      UpperCharSpace(s[|s| - 1]);
      assert Upper(s)[..|s| - 1] == Upper(s[..|s| - 1]);
      if IsSpace(s[|s| - 1]) {
        TrimEndUpper(s[..|s| - 1]);
      }
    }
  }

  lemma TrimUpper(s: string)
    ensures Trim(Upper(s)) == Upper(Trim(s))
  {
    TrimStartUpper(s);
    TrimEndUpper(TrimStart(s));
  }

  // ---------------------------------------------------------------------------
  // canonicalType (js/wallet-app.js:1808-1813)
  // ---------------------------------------------------------------------------

  /** Drops a leading run of separators. */
  function DropSeparators(s: string): (r: string)
    ensures |r| <= |s|
  {
    if s != [] && IsSeparator(s[0]) then DropSeparators(s[1..]) else s
  }

  /** What DropSeparators keeps is a suffix that does not start with a separator. */
  lemma {:induction false} DropSeparatorsSpec(s: string)
    ensures var r := DropSeparators(s);
      r == s[|s| - |r|..] && (r == [] || !IsSeparator(r[0]))
  {
    if s != [] && IsSeparator(s[0]) {
      DropSeparatorsSpec(s[1..]);
    }
  }

  /** `s.replace(/[\s-]+/g, '_')`: every maximal run of whitespace and hyphens
      becomes one underscore. */
  function CollapseSeparators(s: string): (r: string)
    ensures forall i :: 0 <= i < |r| ==> !IsSeparator(r[i])
    ensures forall i :: 0 <= i < |r| ==> r[i] == '_' || r[i] in s
    ensures (forall i :: 0 <= i < |s| ==> !IsSeparator(s[i])) ==> r == s
    ensures r == [] <==> s == []
    decreases |s|
  {
    if s == [] then []
    else if IsSeparator(s[0]) then
      var rest := DropSeparators(s[1..]);
      DropSeparatorsSpec(s[1..]);
      var tail := CollapseSeparators(rest);
      assert forall c :: c in rest ==> c in s;
      "_" + tail
    else
      var tail := CollapseSeparators(s[1..]);
      [s[0]] + tail
  }

  /** A run of separators followed by the end or by another character is
      skipped as a whole. */
  lemma {:induction false} DropSeparatorsRun(run: string, s: string)
    requires forall i :: 0 <= i < |run| ==> IsSeparator(run[i])
    requires s == [] || !IsSeparator(s[0])
    ensures DropSeparators(run + s) == s
    decreases |run|
  {
    if run == [] {
      assert run + s == s;
    } else {
      assert (run + s)[0] == run[0];
      assert (run + s)[1..] == run[1..] + s;
      DropSeparatorsRun(run[1..], s);
    }
  }

  /** A character that is neither whitespace nor a hyphen stays where it is. */
  lemma CollapseKeeps(c: char, s: string)
    requires !IsSeparator(c)
    ensures CollapseSeparators([c] + s) == [c] + CollapseSeparators(s)
  {
    assert ([c] + s)[1..] == s;
  }

  /** A whole run of whitespace and hyphens, up to the next other character or
      the end, becomes one underscore in its place. */
  lemma CollapseRun(run: string, s: string)
    requires run != [] && forall i :: 0 <= i < |run| ==> IsSeparator(run[i])
    requires s == [] || !IsSeparator(s[0])
    ensures CollapseSeparators(run + s) == "_" + CollapseSeparators(s)
  {
    assert (run + s)[0] == run[0];
    assert (run + s)[1..] == run[1..] + s;
    DropSeparatorsRun(run[1..], s);
  }

  /** The matching key for credential types: trimmed, upper-cased, and with
      every run of whitespace and hyphens turned into `_`. */
  function CanonicalType(t: string): string {
    CollapseSeparators(Upper(Trim(t)))
  }

  /** A canonical type holds no whitespace, no hyphen and no lower-case letter. */
  predicate IsCanonical(t: string) {
    forall i :: 0 <= i < |t| ==> !IsSeparator(t[i]) && !IsLower(t[i])
  }

  /** Every result of CanonicalType is canonical, so in particular it has no
      leading or trailing whitespace. */
  lemma CanonicalTypeShape(t: string)
    ensures IsCanonical(CanonicalType(t))
    ensures var c := CanonicalType(t); c == [] || (!IsSpace(c[0]) && !IsSpace(c[|c| - 1]))
  {
    var u := Upper(Trim(t));
    var c := CollapseSeparators(u);
    forall i | 0 <= i < |c| ensures !IsLower(c[i]) {
      if c[i] != '_' {
        var j :| 0 <= j < |u| && u[j] == c[i];
      }
    }
  }

  /** CanonicalType leaves exactly the canonical strings alone. */
  lemma CanonicalTypeFixpoint(t: string)
    ensures CanonicalType(t) == t <==> IsCanonical(t)
  {
    if IsCanonical(t) {
      assert Trim(t) == t;
      assert Upper(t) == t;
    } else {
      CanonicalTypeShape(t);
    }
  }

  /** Canonicalising twice gives the same key as canonicalising once. */
  lemma CanonicalTypeIdempotent(t: string)
    ensures CanonicalType(CanonicalType(t)) == CanonicalType(t)
  {
    CanonicalTypeShape(t);
    CanonicalTypeFixpoint(CanonicalType(t));
  }

  // ---------------------------------------------------------------------------
  // extractSessionIdFromParams (js/wallet-app.js:626-637)
  // ---------------------------------------------------------------------------

  /** The query parameters that may carry a session id, in priority order. */
  const SessionParamKeys: seq<string> := ["session", "code", "qr", "id"]

  /** The trimmed value of one query parameter, "" when it is absent. A query
      string is modelled as a map from a parameter name to its first value. */
  function ParamValue(params: map<string, string>, key: string): string {
    if key in params then Trim(params[key]) else ""
  }

  /** The trimmed value of the first key in `keys` whose value is not blank. */
  function FirstSessionParam(params: map<string, string>, keys: seq<string>): (r: string)
    ensures r == "" <==> forall i :: 0 <= i < |keys| ==> ParamValue(params, keys[i]) == ""
  {
    if keys == [] then ""
    else if ParamValue(params, keys[0]) != "" then ParamValue(params, keys[0])
    else FirstSessionParam(params, keys[1..])
  }

  /** A non-blank result is the value of some key, and every key before that
      one is blank: the keys are tried in priority order. */
  lemma {:induction false} FirstSessionParamIsFirst(params: map<string, string>, keys: seq<string>)
    ensures var r := FirstSessionParam(params, keys);
      r != "" ==> exists i :: 0 <= i < |keys| && ParamValue(params, keys[i]) == r
                              && forall j :: 0 <= j < i ==> ParamValue(params, keys[j]) == ""
  {
    var r := FirstSessionParam(params, keys);
    if keys != [] && ParamValue(params, keys[0]) == "" && r != "" {
      FirstSessionParamIsFirst(params, keys[1..]);
      var i :| 0 <= i < |keys[1..]| && ParamValue(params, keys[1..][i]) == r
               && forall j :: 0 <= j < i ==> ParamValue(params, keys[1..][j]) == "";
      assert ParamValue(params, keys[i + 1]) == r;
      forall j | 0 <= j < i + 1 ensures ParamValue(params, keys[j]) == "" {
        if j > 0 { assert keys[j] == keys[1..][j - 1]; }
      }
    } else if keys != [] && r != "" {
      assert ParamValue(params, keys[0]) == r;
    }
  }

  /** The session id of a deep link: the first non-blank of the parameters
      `session`, `code`, `qr`, `id`, trimmed; "" when there are no parameters or
      all of them are blank. */
  function ExtractSessionIdFromParams(params: Option<map<string, string>>): (r: string)
    ensures params.None? ==> r == ""
    ensures r == [] || (!IsSpace(r[0]) && !IsSpace(r[|r| - 1]))
    ensures params.Some? && r != "" ==>
      exists i :: 0 <= i < |SessionParamKeys| && ParamValue(params.value, SessionParamKeys[i]) == r
                  && forall j :: 0 <= j < i ==> ParamValue(params.value, SessionParamKeys[j]) == ""
    ensures params.Some? && r == "" ==>
      forall i :: 0 <= i < |SessionParamKeys| ==> ParamValue(params.value, SessionParamKeys[i]) == ""
  {
    match params
    case None => ""
    case Some(p) =>
      FirstSessionParamIsFirst(p, SessionParamKeys);
      FirstSessionParam(p, SessionParamKeys)
  }

  // ---------------------------------------------------------------------------
  // normalizePinValue (js/wallet-app.js:822-826)
  // ---------------------------------------------------------------------------

  const DefaultPin: string := "123456"

  /** `s.replace(/\D/g, '')`: the digits of `s`, in order. A single character
      is kept exactly when it is a digit; `DigitsConcat` gives the rest. */
  function Digits(s: string): (r: string)
    ensures |r| <= |s| && forall i :: 0 <= i < |r| ==> IsDigit(r[i])
    ensures r == [] <==> forall i :: 0 <= i < |s| ==> !IsDigit(s[i])
    ensures |s| == 1 ==> r == (if IsDigit(s[0]) then s else [])
  {
    if s == [] then []
    else
      var rest := Digits(s[1..]);
      assert forall i :: 1 <= i < |s| ==> s[i] == s[1..][i - 1];
      if IsDigit(s[0]) then [s[0]] + rest else rest
  }

  /** Removing the non-digits works piece by piece: the digits of a
      concatenation are the digits of the first part followed by those of the
      second. */
  lemma {:induction false} DigitsConcat(a: string, b: string)
    ensures Digits(a + b) == Digits(a) + Digits(b)
    decreases |a|
  {
    if a == [] {
      assert a + b == b;
    } else {
      assert (a + b)[0] == a[0];
      assert (a + b)[1..] == a[1..] + b;
      DigitsConcat(a[1..], b);
    }
  }

  lemma {:induction false} DigitsOfDigits(s: string)
    requires forall i :: 0 <= i < |s| ==> IsDigit(s[i])
    ensures Digits(s) == s
  {
    if s != [] {
      DigitsOfDigits(s[1..]);
    }
  }

  /** The PIN the overlay expects: the digits of the configured value, or
      "123456" when there are none (or no value at all). */
  function NormalizePinValue(pinValue: Option<string>): (r: string)
    ensures |r| > 0 && forall i :: 0 <= i < |r| ==> IsDigit(r[i])
    ensures pinValue.Some? && Digits(pinValue.value) != "" ==> r == Digits(pinValue.value)
    ensures pinValue.None? || Digits(pinValue.value) == "" ==> r == DefaultPin
  {
    var digits := Digits(pinValue.GetOr(""));
    if digits == "" then DefaultPin else digits
  }

  /** A PIN that is already a non-empty string of digits is kept as it is. */
  lemma NormalizePinFixpoint(s: string)
    requires s != "" && forall i :: 0 <= i < |s| ==> IsDigit(s[i])
    ensures NormalizePinValue(Some(s)) == s
  {
    DigitsOfDigits(s);
  }

  /** A character that is not a digit, wherever it stands, does not change
      the PIN. */
  lemma NormalizePinIgnoresNonDigit(a: string, c: char, b: string)
    requires !IsDigit(c)
    ensures NormalizePinValue(Some(a + [c] + b)) == NormalizePinValue(Some(a + b))
  {
    DigitsConcat(a + [c], b);
    DigitsConcat(a, [c]);
    DigitsConcat(a, b);
  }

  /** Normalising a normalised PIN changes nothing. */
  lemma NormalizePinIdempotent(v: Option<string>)
    ensures NormalizePinValue(Some(NormalizePinValue(v))) == NormalizePinValue(v)
  {
    NormalizePinFixpoint(NormalizePinValue(v));
  }

  // ---------------------------------------------------------------------------
  // humanList (js/wallet-app.js:909-915)
  // ---------------------------------------------------------------------------

  /** `items.map((v) => String(v || '').trim()).filter(Boolean)`: one item
      becomes its trimmed text unless that is empty; `CleanItemsConcat` says
      the items are cleaned one by one, in order. */
  function CleanItems(items: seq<string>): (r: seq<string>)
    ensures |r| <= |items|
    ensures forall i :: 0 <= i < |r| ==> r[i] != ""
    ensures |items| == 1 ==> r == (if Trim(items[0]) == "" then [] else [Trim(items[0])])
  {
    if items == [] then []
    else
      var t := Trim(items[0]);
      (if t == "" then [] else [t]) + CleanItems(items[1..])
  }

  /** Cleaning a concatenation cleans each part and keeps them in order. */
  lemma {:induction false} CleanItemsConcat(a: seq<string>, b: seq<string>)
    ensures CleanItems(a + b) == CleanItems(a) + CleanItems(b)
    decreases |a|
  {
    if a == [] {
      assert a + b == b;
    } else {
      assert (a + b)[0] == a[0];
      assert (a + b)[1..] == a[1..] + b;
      CleanItemsConcat(a[1..], b);
    }
  }

  /** `xs.join(sep)`. */
  function Join(xs: seq<string>, sep: string): string {
    if |xs| == 0 then "" else if |xs| == 1 then xs[0] else xs[0] + sep + Join(xs[1..], sep)
  }

  /** The Dutch enumeration "a", "a en b", "a, b en c" of a list of words. */
  function Enumerate(list: seq<string>): (r: string)
    ensures (forall i :: 0 <= i < |list| ==> list[i] != "") ==> (r == "" <==> list == [])
  {
    if |list| == 0 then ""
    else if |list| == 1 then list[0]
    else if |list| == 2 then list[0] + " en " + list[1]
    else Join(list[..|list| - 1], ", ") + " en " + list[|list| - 1]
  }

  /** The phrase for the non-blank items: empty when there are none, the word
      itself for one, and otherwise the words joined by ", " with " en "
      before the last. */
  function HumanList(items: seq<string>): (r: string)
    ensures var l := CleanItems(items);
      && (r == "" <==> l == [])
      && (|l| == 1 ==> r == l[0])
      && (|l| >= 2 ==> r == Join(l[..|l| - 1], ", ") + " en " + l[|l| - 1])
  {
    var l := CleanItems(items);
    if |l| >= 2 then EnumerateShape(l); Enumerate(l) else Enumerate(l)
  }

  /** The two-word case agrees with the general one: whenever there are at
      least two words, the last is joined with " en " and the others with ", ". */
  lemma EnumerateShape(list: seq<string>)
    requires |list| >= 2
    ensures Enumerate(list) == Join(list[..|list| - 1], ", ") + " en " + list[|list| - 1]
  {
    if |list| == 2 {
      assert list[..1] == [list[0]];
    }
  }

  /** One more non-blank item is added as the last word: the words before it
      are joined by ", " and it follows " en ". */
  lemma HumanListSnoc(items: seq<string>, w: string)
    requires CleanItems(items) != [] && Trim(w) != ""
    ensures HumanList(items + [w]) == Join(CleanItems(items), ", ") + " en " + Trim(w)
  {
    CleanItemsConcat(items, [w]);
    var l := CleanItems(items) + [Trim(w)];
    assert l[..|l| - 1] == CleanItems(items);
  }

  // ---------------------------------------------------------------------------
  // sourceLabel (js/wallet-app.js:293-300)
  // ---------------------------------------------------------------------------

  /** The Dutch label of the channel an inbox entry came in by: the three
      known channels have their own wording, in any letter case, and any
      other channel is named after "via ". */
  function SourceLabel(source: string): (r: string)
    ensures r == "" <==> source == ""
    ensures Lower(source) == "push" ==> r == "via push"
    ensures Lower(source) == "deeplink" ==> r == "via link"
    ensures Lower(source) == "manual" ==> r == "handmatig"
    ensures source != "" && Lower(source) !in ["push", "deeplink", "manual"] ==> r == "via " + Lower(source)
  {
    var key := Lower(source);
    if key == "" then ""
    else if key == "push" then "via push"
    else if key == "deeplink" then "via link"
    else if key == "manual" then "handmatig"
    else "via " + key
  }

  /** The label does not depend on letter case. */
  lemma SourceLabelIgnoresCase(source: string)
    ensures SourceLabel(Upper(source)) == SourceLabel(source)
  {
    assert Lower(Upper(source)) == Lower(source);
  }

  // ---------------------------------------------------------------------------
  // Decimal rendering of a count, as a template literal does it
  // ---------------------------------------------------------------------------

  function DigitChar(d: nat): char
    requires d < 10
  {
    ('0' as int + d) as char
  }

  function DigitValue(c: char): nat
    requires IsDigit(c)
  {
    c as int - '0' as int
  }

  /** The number a string of decimal digits spells. */
  function DecimalValue(s: string): nat
    requires forall i :: 0 <= i < |s| ==> IsDigit(s[i])
  {
    if s == [] then 0 else DecimalValue(s[..|s| - 1]) * 10 + DigitValue(s[|s| - 1])
  }

  /** `${n}`: the decimal digits that spell `n`, without leading zeros. */
  function NatToString(n: nat): (r: string)
    ensures |r| > 0 && forall i :: 0 <= i < |r| ==> IsDigit(r[i])
    ensures DecimalValue(r) == n
    ensures n > 0 ==> r[0] != '0'
  {
    if n < 10 then [DigitChar(n)]
    else
      var t := NatToString(n / 10);
      var r := t + [DigitChar(n % 10)];
      assert r[..|r| - 1] == t;
      r
  }
}
