/** The `Cache-Control` and `If-None-Match` parser of the outbound HTTP cache: the request directives
    `no-store`, `no-cache` and `max-age` of section 5.2.1 of RFC 9111, and one strong entity tag of
    section 13.1.2 of RFC 9110. Header values are strings of characters below 256. */
module CacheControl {
  import opened Wrappers
  import opened Strings
  import opened Sequences

  datatype Control = Control(noCache: bool, noStore: bool, maxAge: u64, etag: string)

  const DEFAULT_CONTROL := Control(false, false, 0, "")

  datatype ControlError =
    | EmptyHeader | NotVisible | NoStoreCombined | NoCacheAfterNoStore | MaxAgeAfterNoStore | MalformedMaxAge
    | MissingEtag | EmptyEtag | MultipleEtags | WeakEtag

  predicate VisibleChar(c: char) {
    c == '\t' || ' ' <= c <= '~'
  }

  /** The values a header converts to text without error. */
  predicate VisibleAscii(value: string) {
    forall c :: c in value ==> VisibleChar(c)
  }

  // ---------- one directive ----------

  datatype Directive = NoStore | NoCache | MaxAge(seconds: u64) | Malformed | Other

  predicate IsBlank(c: char) {
    c == ' ' || c == '\t'
  }

  function Trim(s: string): string {
    if s == "" then ""
    else if IsBlank(s[0]) then Trim(s[1..])
    else if IsBlank(s[|s| - 1]) then Trim(s[..|s| - 1])
    else s
  }

  function LowerChar(c: char): char {
    if 'A' <= c <= 'Z' then c - 'A' + 'a' else c
  }

  function Lower(s: string): string {
    seq(|s|, i requires 0 <= i < |s| => LowerChar(s[i]))
  }

  function Digits(s: string): Option<nat> {
    if s == "" then
      Some(0)
    else
      var last := s[|s| - 1];
      match Digits(s[..|s| - 1])
      case None => None
      case Some(n) => if '0' <= last <= '9' then Some(10 * n + (last - '0') as nat) else None
  }

  /** An optional plus sign and at least one digit, within 64 bits. */
  function ParseU64(s: string): Option<u64> {
    var digits := if s != "" && s[0] == '+' then s[1..] else s;
    if digits == "" then
      None
    else
      match Digits(digits)
      case None => None
      case Some(n) => if n < TWO_TO_THE_64 then Some(n) else None
  }

  const MAX_AGE := "max-age="

  /** What one piece between commas asks for; blank pieces and unknown directives are ignored. */
  function Classify(piece: string): Directive {
    var directive := Lower(Trim(piece));
    if directive == "no-store" then NoStore
    else if directive == "no-cache" then NoCache
    else if MAX_AGE <= directive then
      match ParseU64(Trim(directive[|MAX_AGE|..]))
      case None => Malformed
      case Some(n) => MaxAge(n)
    else Other
  }

  function ClassifyAll(pieces: seq<string>): seq<Directive> {
    seq(|pieces|, i requires 0 <= i < |pieces| => Classify(pieces[i]))
  }

  function Directives(header: string): seq<Directive> {
    ClassifyAll(Split(header, ','))
  }

  // ---------- what the directive syntax means ----------

  function Decimal(n: nat): (s: string)
    ensures s != ""
  {
    (if n < 10 then "" else Decimal(n / 10)) + [('0' as int + n % 10) as char]
  }

  lemma {:induction false} DigitsNext(init: string, c: char)
    requires Digits(init).Some? && '0' <= c <= '9'
    ensures Digits(init + [c]) == Some(10 * Digits(init).value + (c as int - '0' as int))
  {
    assert (init + [c])[..|init|] == init;
  }

  lemma {:induction false} DigitsOfDecimal(n: nat)
    ensures Digits(Decimal(n)) == Some(n)
    ensures forall c :: c in Decimal(n) ==> '0' <= c <= '9'
  {
    var init, c := if n < 10 then "" else Decimal(n / 10), ('0' as int + n % 10) as char;
    if n >= 10 {
      DigitsOfDecimal(n / 10);
    }
    assert Decimal(n) == init + [c];
    DigitsNext(init, c);
  }

  predicate Blank(s: string) {
    forall c :: c in s ==> IsBlank(c)
  }

  /** Trimming removes exactly the blanks around a text that neither starts nor ends with one. */
  lemma {:induction false} TrimAround(before: string, s: string, after: string)
    requires Blank(before) && Blank(after)
    requires s != "" && !IsBlank(s[0]) && !IsBlank(s[|s| - 1])
    ensures Trim(before + s + after) == s
    decreases |before| + |after|
  {
    var whole := before + s + after;
    if before != "" {
      assert before[0] in before && forall c :: c in before[1..] ==> c in before;
      assert whole[1..] == before[1..] + s + after;
      TrimAround(before[1..], s, after);
    } else if after != "" {
      var init := after[..|after| - 1];
      assert after[|after| - 1] in after && forall c :: c in init ==> c in after;
      assert whole[..|whole| - 1] == before + s + init;
      TrimAround(before, s, init);
    } else {
      assert whole == s;
    }
  }

  lemma {:induction false} LowerKeeps(s: string)
    requires forall c :: c in s ==> !('A' <= c <= 'Z')
    ensures Lower(s) == s
  {
    forall i | 0 <= i < |s| ensures Lower(s)[i] == s[i] {
      assert s[i] in s;
    }
  }

  lemma {:induction false} ParseDigits(s: string, n: nat)
    requires Digits(s) == Some(n) && s != "" && s[0] != '+'
    ensures ParseU64(s) == if n < TWO_TO_THE_64 then Some(n) else None
  {
    hide Digits;
  }

  lemma {:induction false} ParseDecimal(n: nat)
    ensures ParseU64(Trim(Decimal(n))) == if n < TWO_TO_THE_64 then Some(n) else None
  {
    var digits := Decimal(n);
    DigitsOfDecimal(n);
    hide Digits, Decimal, Trim, ParseU64;
    assert digits[0] in digits && digits[|digits| - 1] in digits;
    assert "" + digits + "" == digits;
    TrimAround("", digits, "");
    ParseDigits(digits, n);
  }

  lemma {:induction false} ClassifyAge(piece: string, age: string)
    requires Trim(piece) == MAX_AGE + age && Lower(MAX_AGE + age) == MAX_AGE + age
    ensures Classify(piece) == match ParseU64(Trim(age)) case None => Malformed case Some(n) => MaxAge(n)
  {
    hide Trim, ParseU64, Lower;
    var directive := MAX_AGE + age;
    assert directive[0] == 'm';
    assert directive[|MAX_AGE|..] == age;
  }

  /** A decimal age, with any blanks around the directive, is read as that number if it fits 64 bits and
      is malformed otherwise. */
  lemma {:induction false} MaxAgeIsRead(before: string, n: nat, after: string)
    requires Blank(before) && Blank(after)
    ensures Classify(before + (MAX_AGE + Decimal(n)) + after) == if n < TWO_TO_THE_64 then MaxAge(n) else Malformed
  {
    var digits := Decimal(n);
    var directive := MAX_AGE + digits;
    DigitsOfDecimal(n);
    assert digits[|digits| - 1] in digits;
    hide Classify, ParseU64, Digits, Decimal, Trim;
    assert directive[0] == 'm' && directive[|directive| - 1] == digits[|digits| - 1];
    TrimAround(before, directive, after);
    LowerKeeps(directive);
    ClassifyAge(before + directive + after, digits);
    ParseDecimal(n);
  }

  /** Spaces and tabs only. */
  predicate Spaces(s: string) {
    forall c :: c in s ==> c == ' ' || c == '\t'
  }

  /** `core` is `text`, which is in small letters, in any letter case. */
  predicate Spelled(core: string, text: string) {
    |core| == |text|
    && forall i :: 0 <= i < |text| ==>
                     core[i] == text[i] || ('a' <= text[i] <= 'z' && core[i] as int + 32 == text[i] as int)
  }

  predicate SaysWith(piece: string, text: string, before: string, core: string, after: string) {
    piece == before + core + after && Spaces(before) && Spaces(after) && Spelled(core, text)
  }

  /** The piece is the text, in any letter case and with any blanks around it. */
  ghost predicate Says(piece: string, text: string) {
    exists before, core, after :: SaysWith(piece, text, before, core, after)
  }

  predicate BeginsWith(piece: string, text: string, before: string, core: string, rest: string) {
    piece == before + core + rest && Spaces(before) && Spelled(core, text)
  }

  /** The piece begins, after any blanks, with the text in any letter case. */
  ghost predicate Begins(piece: string, text: string) {
    exists before, core, rest :: BeginsWith(piece, text, before, core, rest)
  }

  /** Text that trimming leaves as it is. */
  predicate IsTrimmed(s: string) {
    s == "" || (!IsBlank(s[0]) && !IsBlank(s[|s| - 1]))
  }

  /** What trimming takes away. */
  lemma {:induction false} TrimParts(s: string) returns (before: string, after: string)
    ensures s == before + Trim(s) + after && Spaces(before) && Spaces(after) && IsTrimmed(Trim(s))
  {
    before, after := "", "";
    if s != "" {
      if IsBlank(s[0]) {
        before, after := TrimParts(s[1..]);
        before := [s[0]] + before;
        assert s == [s[0]] + s[1..];
      } else if IsBlank(s[|s| - 1]) {
        before, after := TrimParts(s[..|s| - 1]);
        after := after + [s[|s| - 1]];
        assert s == s[..|s| - 1] + [s[|s| - 1]];
      }
    }
  }

  lemma {:induction false} SpelledIffLower(core: string, text: string)
    requires forall c :: c in text ==> !('A' <= c <= 'Z')
    ensures Spelled(core, text) <==> Lower(core) == text
  {
    forall i | 0 <= i < |core| && i < |text|
      ensures (core[i] == text[i] || ('a' <= text[i] <= 'z' && core[i] as int + 32 == text[i] as int))
              <==> LowerChar(core[i]) == text[i]
    {
      assert text[i] in text;
    }
    if Lower(core) == text {
      assert forall i :: 0 <= i < |core| ==> Lower(core)[i] == LowerChar(core[i]);
    }
  }

  /** The directive text a piece comes down to, in terms of the piece itself. */
  lemma {:induction false} SaysIff(piece: string, text: string)
    requires text != "" && 'a' <= text[0] <= 'z' && 'a' <= text[|text| - 1] <= 'z'
    requires forall c :: c in text ==> !('A' <= c <= 'Z')
    ensures Says(piece, text) <==> Lower(Trim(piece)) == text
  {
    var core := Trim(piece);
    var before, after := TrimParts(piece);
    SpelledIffLower(core, text);
    if Lower(core) == text {
      assert SaysWith(piece, text, before, core, after);
    }
    if Says(piece, text) {
      var before', core', after' :| SaysWith(piece, text, before', core', after');
      assert !IsBlank(core'[0]) && !IsBlank(core'[|core'| - 1]);
      TrimAround(before', core', after');
      SpelledIffLower(core', text);
    }
  }

  lemma {:induction false} LowerPrefix(s: string, k: nat)
    requires k <= |s|
    ensures Lower(s)[..k] == Lower(s[..k]) && Lower(s)[k..] == Lower(s[k..])
  {
  }

  /** After its own first part, a piece is trimmed only behind. */
  lemma {:induction false} TrimAfterCore(before: string, core: string, rest: string)
    returns (tail: string, after: string)
    requires Spaces(before) && core != "" && !IsBlank(core[0]) && !IsBlank(core[|core| - 1])
    ensures rest == tail + after && Spaces(after)
    ensures Trim(before + core + rest) == core + tail
    ensures Trim(tail) == Trim(rest)
  {
    tail, after := rest, "";
    while tail != "" && IsBlank(tail[|tail| - 1])
      invariant rest == tail + after && Spaces(after)
      invariant Trim(tail) == Trim(rest)
      decreases |tail|
    {
      TrimLast(tail);
      assert tail == tail[..|tail| - 1] + [tail[|tail| - 1]];
      after := [tail[|tail| - 1]] + after;
      tail := tail[..|tail| - 1];
    }
    TrimAround(before, core + tail, after);
    assert before + core + rest == before + (core + tail) + after;
  }

  lemma {:induction false} TrimLast(s: string)
    requires s != "" && IsBlank(s[|s| - 1])
    ensures Trim(s) == Trim(s[..|s| - 1])
  {
    if IsBlank(s[0]) && |s| > 1 {
      TrimLast(s[1..]);
      assert s[1..][..|s| - 2] == s[..|s| - 1][1..];
    }
  }

  /** A piece asks for an age exactly if it begins with `max-age=`; the age is then parsed from what follows,
      blanks trimmed. */
  lemma {:induction false} BeginsIff(piece: string)
    ensures Begins(piece, "max-age=") <==> MAX_AGE <= Lower(Trim(piece))
    ensures forall before, core, rest :: BeginsWith(piece, "max-age=", before, core, rest) ==>
                                           Trim(Lower(Trim(piece))[|MAX_AGE|..]) == Lower(Trim(rest))
  {
    var trimmed := Trim(piece);
    if MAX_AGE <= Lower(trimmed) {
      var before, after := TrimParts(piece);
      var core, tail := trimmed[..|MAX_AGE|], trimmed[|MAX_AGE|..];
      LowerPrefix(trimmed, |MAX_AGE|);
      SpelledIffLower(core, MAX_AGE);
      assert trimmed == core + tail;
      assert piece == before + core + (tail + after);
      assert BeginsWith(piece, "max-age=", before, core, tail + after);
    }
    forall before, core, rest | BeginsWith(piece, "max-age=", before, core, rest)
      ensures MAX_AGE <= Lower(Trim(piece)) && Trim(Lower(Trim(piece))[|MAX_AGE|..]) == Lower(Trim(rest))
    {
      assert !IsBlank(core[0]) && core[|core| - 1] == '=';
      var tail, after := TrimAfterCore(before, core, rest);
      SpelledIffLower(core, MAX_AGE);
      LowerPrefix(core + tail, |core|);
      assert (core + tail)[..|core|] == core && (core + tail)[|core|..] == tail;
      TrimOfLower(tail);
    }
  }

  lemma {:induction false} TrimOfLower(s: string)
    ensures Trim(Lower(s)) == Lower(Trim(s))
  {
    if s != "" {
      if IsBlank(s[0]) {
        TrimOfLower(s[1..]);
        assert Lower(s)[1..] == Lower(s[1..]);
      } else if IsBlank(s[|s| - 1]) {
        TrimOfLower(s[..|s| - 1]);
        assert Lower(s)[..|s| - 1] == Lower(s[..|s| - 1]);
      }
    }
  }

  /** Digits only, at least one. */
  predicate AllDigits(s: string) {
    s != "" && forall i :: 0 <= i < |s| ==> '0' <= s[i] <= '9'
  }

  /** The number written in decimal digits: the last one counts units, each one before it ten times more. */
  function DigitsValue(s: string): nat
    requires AllDigits(s)
  {
    (if |s| == 1 then 0 else 10 * DigitsValue(s[..|s| - 1])) + (s[|s| - 1] as int - 48)
  }

  /** At least one digit, after an optional plus sign, of value `n` below 2^64. */
  predicate IsNumeral(s: string, n: nat) {
    var digits := if s != "" && s[0] == '+' then s[1..] else s;
    AllDigits(digits) && DigitsValue(digits) == n < 0x1_0000_0000_0000_0000
  }

  lemma {:induction false} DigitsIff(s: string)
    requires s != ""
    ensures Digits(s).Some? <==> AllDigits(s)
    ensures AllDigits(s) ==> Digits(s) == Some(DigitsValue(s))
  {
    var init, last := s[..|s| - 1], s[|s| - 1];
    assert s == init + [last];
    assert AllDigits(s) <==> (init == "" || AllDigits(init)) && '0' <= last <= '9';
    if init != "" {
      DigitsIff(init);
    }
  }

  lemma {:induction false} ParseIff(s: string, n: u64)
    ensures ParseU64(s) == Some(n) <==> IsNumeral(s, n)
  {
    var digits := if s != "" && s[0] == '+' then s[1..] else s;
    if digits != "" {
      DigitsIff(digits);
    }
  }

  lemma {:induction false} LowerNumeral(s: string, n: nat)
    ensures IsNumeral(Lower(s), n) <==> IsNumeral(s, n)
  {
    SameDigits(s, Lower(s));
    if s != "" {
      SameDigits(s[1..], Lower(s)[1..]);
    }
  }

  lemma {:induction false} SameDigits(s: string, t: string)
    requires |s| == |t| && forall i :: 0 <= i < |s| ==> t[i] == LowerChar(s[i])
    ensures AllDigits(s) <==> AllDigits(t)
    ensures AllDigits(s) ==> s == t
  {
    assert forall i :: 0 <= i < |s| && ('0' <= s[i] <= '9' || '0' <= t[i] <= '9') ==> s[i] == t[i];
  }

  predicate HoldsWith(rest: string, n: nat, before: string, number: string, after: string) {
    rest == before + number + after && Spaces(before) && Spaces(after) && IsNumeral(number, n)
  }

  /** A numeral of this value, with any blanks around it. */
  ghost predicate HoldsNumeral(rest: string, n: nat) {
    exists before, number, after :: HoldsWith(rest, n, before, number, after)
  }

  lemma {:induction false} HoldsIff(rest: string, n: nat)
    ensures HoldsNumeral(rest, n) <==> IsNumeral(Trim(rest), n)
  {
    if IsNumeral(Trim(rest), n) {
      var before, after := TrimParts(rest);
      assert HoldsWith(rest, n, before, Trim(rest), after);
    }
    if HoldsNumeral(rest, n) {
      var before, number, after :| HoldsWith(rest, n, before, number, after);
      assert number != "" && !IsBlank(number[0]) && !IsBlank(number[|number| - 1]) by {
        assert number[|number| - 1] == '+' || '0' <= number[|number| - 1] <= '9';
      }
      TrimAround(before, number, after);
    }
  }

  /** What every piece between commas means, in terms of its own characters: `no-store` and `no-cache` in any
      letter case between blanks; an age if it begins with `max-age=`, with the number that follows, blanks
      around it allowed, or malformed if none does; anything else is ignored. */
  lemma {:induction false} ClassifyIff(piece: string)
    ensures Classify(piece) == NoStore <==> Says(piece, "no-store")
    ensures Classify(piece) == NoCache <==> Says(piece, "no-cache")
    ensures Classify(piece).MaxAge? || Classify(piece).Malformed? <==> Begins(piece, "max-age=")
    ensures Classify(piece) == Other <==>
            !Says(piece, "no-store") && !Says(piece, "no-cache") && !Begins(piece, "max-age=")
  {
    SaysIff(piece, "no-store");
    SaysIff(piece, "no-cache");
    BeginsIff(piece);
    hide Says, Begins, Lower, Trim, ParseU64;
  }

  lemma {:induction false} ClassifyAgeIff(piece: string, before: string, core: string, rest: string, n: u64)
    requires BeginsWith(piece, "max-age=", before, core, rest)
    ensures Classify(piece) == MaxAge(n) <==> HoldsNumeral(rest, n)
  {
    HoldsIff(rest, n);
    BeginsIff(piece);
    assert Begins(piece, "max-age=");
    var number := Trim(Lower(Trim(piece))[|MAX_AGE|..]);
    ParseIff(number, n);
    LowerNumeral(Trim(rest), n);
    ClassifyIff(piece);
    hide Says, Begins, Lower, Trim, ParseU64, IsNumeral, BeginsWith, HoldsNumeral;
  }

  // ---------- the whole header ----------

  function Apply(control: Control, d: Directive): Result<Control, ControlError> {
    match d
    case NoStore =>
      if control.noCache || control.maxAge > 0 then Err(NoStoreCombined) else Ok(control.(noStore := true))
    case NoCache =>
      if control.noStore then Err(NoCacheAfterNoStore) else Ok(control.(noCache := true))
    case MaxAge(n) =>
      if control.noStore then Err(MaxAgeAfterNoStore) else Ok(control.(maxAge := n))
    case Malformed =>
      if control.noStore then Err(MaxAgeAfterNoStore) else Err(MalformedMaxAge)
    case Other => Ok(control)
  }

  function Scan(ds: seq<Directive>): Result<Control, ControlError> {
    if ds == [] then
      Ok(DEFAULT_CONTROL)
    else
      match Scan(ds[..|ds| - 1])
      case Err(e) => Err(e)
      case Ok(control) => Apply(control, ds[|ds| - 1])
  }

  function EtagOf(ifNoneMatch: Option<string>): Result<string, ControlError> {
    match ifNoneMatch
    case None => Err(MissingEtag)
    case Some(etag) =>
      if etag == "" then Err(EmptyEtag)
      else if !VisibleAscii(etag) then Err(NotVisible)
      else if ',' in etag then Err(MultipleEtags)
      else if "W/" <= etag then Err(WeakEtag)
      else Ok(etag)
  }

  function Parsed(cacheControl: Option<string>, ifNoneMatch: Option<string>): Result<Control, ControlError> {
    match cacheControl
    case None => Ok(DEFAULT_CONTROL)
    case Some(header) =>
      if header == "" then Err(EmptyHeader)
      else if !VisibleAscii(header) then Err(NotVisible)
      else
        match Scan(Directives(header))
        case Err(e) => Err(e)
        case Ok(control) =>
          if control.noStore || control.noCache then
            Ok(control)
          else
            match EtagOf(ifNoneMatch)
            case Err(e) => Err(e)
            case Ok(etag) => Ok(control.(etag := etag))
  }

  method Parse(cacheControl: Option<string>, ifNoneMatch: Option<string>)
    returns (r: Result<Control, ControlError>)
    ensures r == Parsed(cacheControl, ifNoneMatch)
    ensures r.Ok? && r.value.noStore ==> !r.value.noCache && r.value.maxAge == 0
  {
    var control := DEFAULT_CONTROL;
    if cacheControl.None? {
      return Ok(control);
    }
    if cacheControl.value == "" {
      return Err(EmptyHeader);
    }
    if !VisibleAscii(cacheControl.value) {
      return Err(NotVisible);
    }
    var pieces := Split(cacheControl.value, ',');
    ghost var ds := Directives(cacheControl.value);
    for i := 0 to |pieces|
      invariant Scan(ds[..i]) == Ok(control)
      invariant control.noStore ==> !control.noCache && control.maxAge == 0
      invariant control.etag == ""
    {
      hide Scan, Split, Digits, ParseU64, Trim, Lower;
      assert ds[i] == Classify(pieces[i]);
      ScanNext(ds, i);
      var directive := Lower(Trim(pieces[i]));
      var failure: Option<ControlError> := None;
      if directive == "no-store" {
        if control.noCache || control.maxAge > 0 {
          failure := Some(NoStoreCombined);
        } else {
          control := control.(noStore := true);
        }
      } else if directive == "no-cache" {
        if control.noStore {
          failure := Some(NoCacheAfterNoStore);
        } else {
          control := control.(noCache := true);
        }
      } else if MAX_AGE <= directive {
        var age := ParseU64(Trim(directive[|MAX_AGE|..]));
        if control.noStore {
          failure := Some(MaxAgeAfterNoStore);
        } else if age.None? {
          failure := Some(MalformedMaxAge);
        } else {
          control := control.(maxAge := age.value);
        }
      }
      if failure.Some? {
        ErrorSticks(ds, i + 1);
        return Err(failure.value);
      }
    }
    assert ds[..|pieces|] == ds;
    if !control.noStore && !control.noCache {
      var etag := EtagOf(ifNoneMatch);
      if etag.Err? {
        return Err(etag.error);
      }
      control := control.(etag := etag.value);
    }
    return Ok(control);
  }

  lemma {:induction false} ScanNext(ds: seq<Directive>, i: nat)
    requires i < |ds| && Scan(ds[..i]).Ok?
    ensures Scan(ds[..i + 1]) == Apply(Scan(ds[..i]).value, ds[i])
  {
    assert ds[..i + 1][..i] == ds[..i];
  }

  lemma {:induction false} ErrorSticks(ds: seq<Directive>, k: nat)
    requires k <= |ds| && Scan(ds[..k]).Err?
    ensures Scan(ds) == Scan(ds[..k])
    decreases |ds| - k
  {
    if k == |ds| {
      assert ds[..k] == ds;
    } else {
      assert ds[..k + 1][..k] == ds[..k];
      ErrorSticks(ds, k + 1);
    }
  }

  // ---------- which directive lists are accepted ----------

  function LastMaxAge(ds: seq<Directive>): u64 {
    if ds == [] then 0
    else if ds[|ds| - 1].MaxAge? then ds[|ds| - 1].seconds
    else LastMaxAge(ds[..|ds| - 1])
  }

  /** No malformed age; `no-store` never together with `no-cache`, never before an age, and after ages
      only if the last of them is zero. */
  ghost predicate Acceptable(ds: seq<Directive>) {
    && Malformed !in ds
    && (NoStore in ds ==> NoCache !in ds)
    && (forall i, j :: 0 <= i < j < |ds| && ds[i].NoStore? ==> !ds[j].MaxAge?)
    && (forall i :: 0 <= i < |ds| && ds[i].NoStore? ==> LastMaxAge(ds[..i]) == 0)
  }

  /** The loop accepts exactly the acceptable lists, and then reports which flags occurred and the last
      age given. */
  lemma {:induction false} ScanAcceptsIff(ds: seq<Directive>)
    ensures Scan(ds).Ok? <==> Acceptable(ds)
    ensures Acceptable(ds) ==> Scan(ds) == Ok(Control(NoCache in ds, NoStore in ds, LastMaxAge(ds), ""))
    ensures Acceptable(ds) && NoStore in ds ==> LastMaxAge(ds) == 0
  {
    if ds != [] {
      var init, last := ds[..|ds| - 1], ds[|ds| - 1];
      hide Acceptable;
      ScanAcceptsIff(init);
      assert ds == init + [last];
      AcceptableNext(init, last);
    }
  }

  lemma {:induction false} AcceptableNext(init: seq<Directive>, last: Directive)
    ensures Acceptable(init + [last]) <==>
            && Acceptable(init) && last != Malformed
            && (last.NoStore? ==> NoCache !in init && LastMaxAge(init) == 0)
            && (last.NoCache? || last.MaxAge? ==> NoStore !in init)
  {
    hide LastMaxAge;
    var ds := init + [last];
    assert ds[|init|] == last && ds[..|init|] == init;
    assert forall i :: 0 <= i < |init| ==> ds[i] == init[i] && ds[..i] == init[..i];
    assert forall i :: 0 <= i < |init| && init[i].NoStore? ==> NoStore in init;
  }

  /** A successful parse is one of three: `no-store` with nothing else, `no-cache` without an entity tag,
      or neither with the one strong, comma-free tag of the request. */
  lemma {:induction false} ParsedControlIsOneOfThree(cacheControl: string, ifNoneMatch: Option<string>)
    requires Parsed(Some(cacheControl), ifNoneMatch).Ok?
    ensures
      var ds, control := Directives(cacheControl), Parsed(Some(cacheControl), ifNoneMatch).value;
      && control.noStore == (NoStore in ds) && control.noCache == (NoCache in ds)
      && control.maxAge == LastMaxAge(ds)
      && (control.noStore ==> !control.noCache && control.maxAge == 0)
      && (control.noStore || control.noCache ==> control.etag == "")
      && (!control.noStore && !control.noCache ==>
            && ifNoneMatch == Some(control.etag) && control.etag != ""
            && VisibleAscii(control.etag) && ',' !in control.etag && !("W/" <= control.etag))
  {
    ScanAcceptsIff(Directives(cacheControl));
  }

  lemma {:induction false} OccursIff(header: string, d: Directive)
    ensures d in Directives(header) <==> exists piece :: piece in Split(header, ',') && Classify(piece) == d
  {
    hide Classify, Split;
    var pieces, ds := Split(header, ','), Directives(header);
    if d in ds {
      var i :| 0 <= i < |ds| && ds[i] == d;
      assert pieces[i] in pieces;
    }
    if piece :| piece in pieces && Classify(piece) == d {
      var i :| 0 <= i < |pieces| && pieces[i] == piece;
      assert ds[i] == d;
    }
  }

  /** The flags at the level of the header: one is set exactly if a piece between commas says so. */
  lemma {:induction false} ParsedFlagsIff(header: string, ifNoneMatch: Option<string>)
    requires Parsed(Some(header), ifNoneMatch).Ok?
    ensures
      var control := Parsed(Some(header), ifNoneMatch).value;
      && (control.noStore <==> exists piece :: piece in Split(header, ',') && Says(piece, "no-store"))
      && (control.noCache <==> exists piece :: piece in Split(header, ',') && Says(piece, "no-cache"))
  {
    ParsedControlIsOneOfThree(header, ifNoneMatch);
    OccursIff(header, NoStore);
    OccursIff(header, NoCache);
    hide Says, Classify, Split, Parsed, Directives;
    forall piece ensures Classify(piece) == NoStore <==> Says(piece, "no-store") {
      ClassifyIff(piece);
    }
    forall piece ensures Classify(piece) == NoCache <==> Says(piece, "no-cache") {
      ClassifyIff(piece);
    }
  }

  /** Exactly when the two headers are accepted. */
  lemma {:induction false} ParsedAcceptsIff(header: string, ifNoneMatch: Option<string>)
    ensures Parsed(None, ifNoneMatch) == Ok(Control(false, false, 0, ""))
    ensures Parsed(Some(header), ifNoneMatch).Ok? <==>
            && header != "" && (forall c :: c in header ==> c == '\t' || 32 <= c as int <= 126)
            && Acceptable(Directives(header))
            && (NoStore !in Directives(header) && NoCache !in Directives(header) ==>
                  && ifNoneMatch.Some?
                  && var tag := ifNoneMatch.value;
                     && tag != "" && (forall c :: c in tag ==> c == '\t' || 32 <= c as int <= 126)
                     && ',' !in tag && !(|tag| >= 2 && tag[0] == 'W' && tag[1] == '/'))
  {
    ScanAcceptsIff(Directives(header));
    hide Acceptable, Directives, Scan;
    if ifNoneMatch.Some? {
      var tag := ifNoneMatch.value;
      assert "W/" <= tag <==> |tag| >= 2 && tag[0] == 'W' && tag[1] == '/';
    }
  }

  // ---------- when the order of directives matters ----------

  lemma {:induction false} LastMaxAgeIsOneOfThem(ds: seq<Directive>)
    ensures (exists d :: d in ds && d.MaxAge?) ==> MaxAge(LastMaxAge(ds)) in ds
    ensures (forall d :: d in ds ==> !d.MaxAge?) ==> LastMaxAge(ds) == 0
  {
    if ds != [] {
      LastMaxAgeIsOneOfThem(ds[..|ds| - 1]);
      assert ds == ds[..|ds| - 1] + [ds[|ds| - 1]];
    }
  }

  /** Without a zero age, acceptance depends only on which directives occur. */
  lemma {:induction false} AcceptableIfNoZeroAge(ds: seq<Directive>)
    requires MaxAge(0) !in ds
    ensures Acceptable(ds) <==>
            Malformed !in ds && (NoStore in ds ==> NoCache !in ds && forall d :: d in ds ==> !d.MaxAge?)
  {
    if Acceptable(ds) && NoStore in ds {
      var i :| 0 <= i < |ds| && ds[i].NoStore?;
      forall d | d in ds ensures !d.MaxAge? {
        if d.MaxAge? {
          var j :| 0 <= j < |ds| && ds[j] == d;
          assert j < i && ds[..i][j] == d;
          assert d in ds[..i];
          LastMaxAgeIsOneOfThem(ds[..i]);
          assert false;
        }
      }
    } else if Malformed !in ds && (NoStore in ds ==> NoCache !in ds && forall d :: d in ds ==> !d.MaxAge?) {
      forall i | 0 <= i < |ds| && ds[i].NoStore? ensures LastMaxAge(ds[..i]) == 0 {
        LastMaxAgeIsOneOfThem(ds[..i]);
      }
    }
  }

  function Without(ds: seq<Directive>, d: Directive): (r: seq<Directive>)
    ensures d !in r
  {
    if ds == [] then [] else (if ds[0] == d then [] else [ds[0]]) + Without(ds[1..], d)
  }

  function Only(ds: seq<Directive>, d: Directive): (r: seq<Directive>)
    ensures forall x :: x in r ==> x == d
  {
    if ds == [] then [] else (if ds[0] == d then [d] else []) + Only(ds[1..], d)
  }

  lemma {:induction false} WithoutAndOnly(ds: seq<Directive>, d: Directive)
    ensures multiset(Without(ds, d)) + multiset(Only(ds, d)) == multiset(ds)
  {
    if ds != [] {
      WithoutAndOnly(ds[1..], d);
      assert ds == [ds[0]] + ds[1..];
    }
  }

  lemma {:induction false} LastMaxAgeIgnoresTail(head: seq<Directive>, tail: seq<Directive>)
    requires forall d :: d in tail ==> !d.MaxAge?
    ensures LastMaxAge(head + tail) == LastMaxAge(head)
  {
    if tail == [] {
      assert head + tail == head;
    } else {
      assert (head + tail)[..|head + tail| - 1] == head + tail[..|tail| - 1];
      assert tail[|tail| - 1] in tail;
      LastMaxAgeIgnoresTail(head, tail[..|tail| - 1]);
    }
  }

  /** Ages before the stores, the last of them zero. */
  lemma {:induction false} ZeroThenStoresIsAcceptable(front: seq<Directive>, stores: seq<Directive>)
    requires forall d :: d in stores ==> d == NoStore
    requires forall d :: d in front ==> d != NoStore && d != Malformed && d != NoCache
    requires LastMaxAge(front) == 0
    ensures Acceptable(front + stores)
  {
    var good := front + stores;
    assert forall d :: d in good <==> d in front || d in stores;
    assert forall i :: 0 <= i < |front| ==> good[i] == front[i] && front[i] in front;
    assert forall i :: |front| <= i < |good| ==> good[i] == stores[i - |front|] && stores[i - |front|] in stores;
    forall i | 0 <= i < |good| && good[i].NoStore? ensures LastMaxAge(good[..i]) == 0 {
      var tail := stores[..i - |front|];
      assert good[..i] == front + tail;
      assert forall d :: d in tail ==> d in stores;
      LastMaxAgeIgnoresTail(front, tail);
    }
  }

  /** A list that could go either way: moving `no-store` last behind a zero age makes it acceptable,
      moving it first does not. */
  lemma {:induction false} OrderMatters(ds: seq<Directive>) returns (good: seq<Directive>, bad: seq<Directive>)
    requires Malformed !in ds && NoStore in ds && NoCache !in ds && MaxAge(0) in ds
    ensures multiset(good) == multiset(bad) == multiset(ds)
    ensures Acceptable(good) && !Acceptable(bad)
  {
    var stores, rest := MovedBehind(ds, NoStore);
    var zeros, others := MovedBehind(rest, MaxAge(0));
    hide *;
    var front := others + zeros;
    good := front + stores;
    bad := stores + front;
    assert multiset(good) == multiset(bad) == multiset(ds);
    SameMembers(bad, ds);
    ZeroThenStoresIsAcceptable(front, stores) by {
      assert forall d :: d in front ==> d in bad;
      assert forall d :: d in front ==> d != NoStore by { SameMembers(front, rest); }
      EndsInZero(others, zeros);
    }
    StoreBeforeAge(bad) by {
      assert bad[0] == stores[0] && stores[0] in stores;
      assert bad[|bad| - 1] == zeros[|zeros| - 1] && zeros[|zeros| - 1] in zeros;
    }
  }

  /** The occurrences of `d`, and all the rest. */
  lemma {:induction false} MovedBehind(ds: seq<Directive>, d: Directive) returns (copies: seq<Directive>,
                                       rest: seq<Directive>)
    requires d in ds
    ensures multiset(rest) + multiset(copies) == multiset(ds)
    ensures d !in rest && copies != [] && forall x :: x in copies ==> x == d
    ensures forall x :: x in ds && x != d ==> x in rest
  {
    copies, rest := Only(ds, d), Without(ds, d);
    WithoutAndOnly(ds, d);
    assert multiset(rest + copies) == multiset(ds);
    SameMembers(rest + copies, ds);
  }

  lemma {:induction false} EndsInZero(others: seq<Directive>, zeros: seq<Directive>)
    requires zeros != [] && forall d :: d in zeros ==> d == MaxAge(0)
    ensures LastMaxAge(others + zeros) == 0
  {
    assert zeros[|zeros| - 1] in zeros;
  }

  lemma {:induction false} StoreBeforeAge(ds: seq<Directive>)
    requires ds != [] && ds[0] == NoStore && ds[|ds| - 1].MaxAge?
    ensures !Acceptable(ds)
  {
  }

  /** Permuting directives never changes whether they are accepted, except exactly for lists that contain
      `no-store` and a zero `max-age` and are otherwise in order. */
  lemma {:induction false} OrderIrrelevantIff(ds: seq<Directive>)
    ensures (forall p :: multiset(p) == multiset(ds) ==> (Acceptable(p) <==> Acceptable(ds)))
            <==> !(Malformed !in ds && NoStore in ds && NoCache !in ds && MaxAge(0) in ds)
  {
    if Malformed !in ds && NoStore in ds && NoCache !in ds && MaxAge(0) in ds {
      var good, bad := OrderMatters(ds);
      assert Acceptable(good) != Acceptable(bad);
    } else {
      forall p | multiset(p) == multiset(ds) ensures Acceptable(p) <==> Acceptable(ds) {
        SameMembers(p, ds);
        if MaxAge(0) !in ds {
          AcceptableIfNoZeroAge(p);
          AcceptableIfNoZeroAge(ds);
        } else if NoStore !in ds {
          assert Acceptable(p) <==> Malformed !in p;
          assert Acceptable(ds) <==> Malformed !in ds;
        }
      }
    }
  }

  // ---------- the same at the level of header strings ----------

  lemma {:induction false} ClassifyAllSplits(p: seq<string>, k: nat)
    requires k < |p|
    ensures multiset(ClassifyAll(p)) == multiset{Classify(p[k])} + multiset(ClassifyAll(Dropped(p, k)))
  {
    assert ClassifyAll(Dropped(p, k)) == Dropped(ClassifyAll(p), k);
    DroppedMultiset(ClassifyAll(p), k);
  }

  lemma {:induction false} ClassifyAllPermutes(p: seq<string>, q: seq<string>)
    requires multiset(p) == multiset(q)
    ensures multiset(ClassifyAll(p)) == multiset(ClassifyAll(q))
    decreases |p|
  {
    if p == [] {
      SameMembers(p, q);
    } else {
      var k := FindFirst(p, q);
      assert Dropped(p, 0) == p[1..];
      ClassifyAllPermutes(p[1..], Dropped(q, k));
      ClassifyAllSplits(p, 0);
      ClassifyAllSplits(q, k);
    }
  }

  lemma {:induction false} JoinIsBlank(p: seq<string>)
    requires |p| > 0
    ensures Join(p, ',') == "" <==> p == [""]
  {
  }

  lemma {:induction false} VisibleParts(a: string, b: string)
    ensures VisibleAscii(a + [','] + b) <==> VisibleAscii(a) && VisibleAscii(b)
  {
    assert forall c :: c in a + [','] + b <==> c in a || c == ',' || c in b;
  }

  lemma {:induction false} JoinIsVisible(p: seq<string>)
    requires |p| > 0
    ensures VisibleAscii(Join(p, ',')) <==> forall piece :: piece in p ==> VisibleAscii(piece)
  {
    if |p| > 1 {
      JoinIsVisible(p[1..]);
      assert p == [p[0]] + p[1..];
      VisibleParts(p[0], Join(p[1..], ','));
    } else {
      assert p == [p[0]];
    }
  }

  /** If every age in a header is positive, writing its directives in any other order gives the same verdict,
      the same two flags and the same entity tag. */
  lemma {:induction false} HeaderOrderIrrelevant(p: seq<string>, q: seq<string>, ifNoneMatch: Option<string>)
    requires |p| > 0 && multiset(p) == multiset(q)
    requires forall piece :: piece in p || piece in q ==> Free(piece, ',')
    requires forall piece :: piece in p ==> Classify(piece) != MaxAge(0)
    ensures
      var first, second := Parsed(Some(Join(p, ',')), ifNoneMatch), Parsed(Some(Join(q, ',')), ifNoneMatch);
      && first.Ok? == second.Ok?
      && (first.Ok? ==>
            && first.value.noStore == second.value.noStore && first.value.noCache == second.value.noCache
            && first.value.etag == second.value.etag)
  {
    SameMembers(p, q);
    ScanOrderIrrelevant(p, q);
    JoinIsBlank(p);
    JoinIsBlank(q);
    JoinIsVisible(p);
    JoinIsVisible(q);
    hide Scan, Directives, Join, VisibleAscii, EtagOf;
    assert p == [""] ==> q == [q[0]] && q[0] in p;
    assert q == [""] ==> p == [p[0]] && p[0] in q;
  }

  lemma {:induction false} ScanOrderIrrelevant(p: seq<string>, q: seq<string>)
    requires |p| > 0 && multiset(p) == multiset(q)
    requires forall piece :: piece in p || piece in q ==> Free(piece, ',')
    requires forall piece :: piece in p ==> Classify(piece) != MaxAge(0)
    ensures
      var first, second := Scan(Directives(Join(p, ','))), Scan(Directives(Join(q, ',')));
      && first.Ok? == second.Ok?
      && (first.Ok? ==>
            && first.value.noStore == second.value.noStore && first.value.noCache == second.value.noCache
            && first.value.etag == second.value.etag == "")
  {
    SameMembers(p, q);
    SplitJoin(p, ',');
    SplitJoin(q, ',');
    var ds, es := ClassifyAll(p), ClassifyAll(q);
    ClassifyAllPermutes(p, q);
    assert MaxAge(0) !in ds by {
      forall i | 0 <= i < |ds| ensures ds[i] != MaxAge(0) {
        assert p[i] in p;
      }
    }
    SameMembers(ds, es);
    OrderIrrelevantIff(ds);
    ScanAcceptsIff(ds);
    ScanAcceptsIff(es);
  }
}
