/** Port versions and version constraints (pkg/module/dependency.go).

    Go's 64-bit `int` is modelled by `Wrap`: every sum and difference the source computes on version
    components is wrapped explicitly. Error texts are reduced to their kind. */
module Version {
  import opened Results
  import opened Text

  const MAX_INT: int := 0x7fff_ffff_ffff_ffff

  /** Two's-complement wrap-around of Go's `int`. */
  function Wrap(x: int): int {
    (x + 0x8000_0000_0000_0000) % 0x1_0000_0000_0000_0000 - 0x8000_0000_0000_0000
  }

  datatype Semver = Semver(major: int, minor: int, patch: int)

  datatype VersionError =
    | VersionRequired
    | MissingNumericVersion
    | EmptyMetadata
    | TooManySegments
    | EmptyNumericSegment
    | SegmentHasWhitespace
    | LeadingZero
    | NotNumeric
    | NegativeSegment
    | MissingVersion
    | EmptyConstraintSegment
    | InvalidConstraintSegment(cause: VersionError)
    | InvalidProducerVersion(reason: VersionError)

  /** A version whose components fit a non-negative Go `int`. */
  predicate InRange(v: Semver) {
    0 <= v.major <= MAX_INT && 0 <= v.minor <= MAX_INT && 0 <= v.patch <= MAX_INT
  }

  // ---- Comparing versions ----

  function Cmp(a: Semver, b: Semver): int {
    if a.major != b.major then Wrap(a.major - b.major)
    else if a.minor != b.minor then Wrap(a.minor - b.minor)
    else Wrap(a.patch - b.patch)
  }

  /** Precedence by major, then minor, then patch: section 11 of Semantic Versioning 2.0.0 without
      pre-releases. */
  predicate Precedes(a: Semver, b: Semver) {
    || a.major < b.major
    || (a.major == b.major && a.minor < b.minor)
    || (a.major == b.major && a.minor == b.minor && a.patch < b.patch)
  }

  predicate AtLeast(v: Semver, b: Semver) {
    v == b || Precedes(b, v)
  }

  lemma WrapSmall(x: int)
    requires -0x8000_0000_0000_0000 <= x <= MAX_INT
    ensures Wrap(x) == x
  {}

  lemma WrapOver(x: int)
    requires MAX_INT < x <= MAX_INT + 0x1_0000_0000_0000_0000
    ensures Wrap(x) == x - 0x1_0000_0000_0000_0000
  {}

  /** The subtraction-based `cmp` is precedence: its sign never lies for parsed versions. */
  lemma CmpIsPrecedence(a: Semver, b: Semver)
    requires InRange(a) && InRange(b)
    ensures Cmp(a, b) < 0 <==> Precedes(a, b)
    ensures Cmp(a, b) > 0 <==> Precedes(b, a)
    ensures Cmp(a, b) == 0 <==> a == b
  {
    WrapSmall(a.major - b.major);
    WrapSmall(a.minor - b.minor);
    WrapSmall(a.patch - b.patch);
  }

  /** `cmp` is a strict total order: trichotomous, antisymmetric and transitive. */
  lemma CmpTotalOrder(a: Semver, b: Semver, c: Semver)
    requires InRange(a) && InRange(b) && InRange(c)
    ensures Cmp(a, b) < 0 <==> Cmp(b, a) > 0
    ensures Cmp(a, b) == 0 <==> a == b
    ensures Cmp(a, b) <= 0 && Cmp(b, c) <= 0 ==> Cmp(a, c) <= 0
    ensures Cmp(a, b) < 0 && Cmp(b, c) <= 0 ==> Cmp(a, c) < 0
  {
    CmpIsPrecedence(a, b);
    CmpIsPrecedence(b, a);
    CmpIsPrecedence(b, c);
    CmpIsPrecedence(a, c);
  }

  // ---- Decimal numerals ----

  predicate IsDigit(c: char) {
    '0' <= c <= '9'
  }

  predicate AllDigits(s: string) {
    forall c :: c in s ==> IsDigit(c)
  }

  function DigitValue(c: char): (d: nat)
    requires IsDigit(c)
    ensures d <= 9
  {
    c as int - '0' as int
  }

  function DigitChar(d: nat): (c: char)
    requires d <= 9
    ensures IsDigit(c) && DigitValue(c) == d
  {
    (d + '0' as int) as char
  }

  function DecimalValue(s: string): nat
    requires AllDigits(s)
  {
    if s == [] then 0 else 10 * DecimalValue(s[..|s| - 1]) + DigitValue(s[|s| - 1])
  }

  /** The decimal numeral of `n`, without leading zeros. */
  function Decimal(n: nat): (s: string)
    ensures s != [] && AllDigits(s)
    ensures |s| > 1 ==> s[0] != '0'
    ensures n > 0 ==> s[0] != '0'
  {
    if n < 10 then [DigitChar(n)] else Decimal(n / 10) + [DigitChar(n % 10)]
  }

  lemma {:induction false} DecimalRoundTrip(n: nat)
    ensures DecimalValue(Decimal(n)) == n
  {
    if n >= 10 {
      DecimalRoundTrip(n / 10);
      assert Decimal(n)[..|Decimal(n)| - 1] == Decimal(n / 10);
    } else {
      assert DecimalValue(Decimal(n)[..0]) == 0;
    }
  }

  lemma {:induction false} DecimalCanonical(s: string)
    requires s != [] && AllDigits(s) && (|s| > 1 ==> s[0] != '0')
    ensures Decimal(DecimalValue(s)) == s
    ensures s[0] != '0' ==> DecimalValue(s) > 0
  {
    var n := |s| - 1;
    assert s == s[..n] + [s[n]];
    DecimalValueStep(s);
    if n > 0 {
      DecimalCanonical(s[..n]);
      hide DecimalValue, Decimal, DigitValue, DigitChar;
      DecimalStep(DecimalValue(s[..n]), DigitValue(s[n]));
      SameDigit(s[n]);
    } else {
      OneDigit(DigitValue(s[0]));
      SameDigit(s[0]);
    }
  }

  /** The numerals are the usual ones. */
  lemma DecimalNotation(m: nat, d: nat)
    requires d <= 9
    ensures Decimal(d) == ["0123456789"[d]]
    ensures m > 0 ==> Decimal(10 * m + d) == Decimal(m) + ["0123456789"[d]]
  {
    hide Decimal;
    OneDigit(d);
    if m > 0 { DecimalStep(m, d); }
  }

  lemma DecimalValueStep(s: string)
    requires s != [] && AllDigits(s)
    ensures DecimalValue(s) == 10 * DecimalValue(s[..|s| - 1]) + DigitValue(s[|s| - 1])
    ensures |s| == 1 ==> DecimalValue(s) == DigitValue(s[0])
  {}

  lemma DecimalStep(m: nat, d: nat)
    requires m > 0 && d <= 9
    ensures Decimal(10 * m + d) == Decimal(m) + [DigitChar(d)]
  {
    assert (10 * m + d) / 10 == m && (10 * m + d) % 10 == d;
  }

  lemma OneDigit(d: nat)
    requires d <= 9
    ensures Decimal(d) == [DigitChar(d)]
  {}

  lemma SameDigit(c: char)
    requires IsDigit(c)
    ensures DigitChar(DigitValue(c)) == c
    ensures c != '0' ==> DigitValue(c) > 0
  {}

  /** `strconv.Atoi` on a 64-bit platform: an optional sign, decimal digits, and a range check. */
  function Atoi(s: string): Option<int> {
    var signed := s != [] && (s[0] == '-' || s[0] == '+');
    var digits := if signed then s[1..] else s;
    if digits == [] || !AllDigits(digits) then None
    else
      var n: int := if s[0] == '-' then -(DecimalValue(digits) as int) else DecimalValue(digits);
      if -MAX_INT - 1 <= n <= MAX_INT then Some(n) else None
  }

  // ---- Parsing versions ----

  /** The checks `parseSemver` makes of one dot-separated segment, in order. */
  function SegmentValue(p: string): Result<int, VersionError> {
    if p == "" then Err(EmptyNumericSegment)
    else if TrimSpace(p) != p then Err(SegmentHasWhitespace)
    else if |p| > 1 && HasPrefix(p, "0") then Err(LeadingZero)
    else match Atoi(p)
      case None => Err(NotNumeric)
      case Some(n) => if n < 0 then Err(NegativeSegment) else Ok(n)
  }

  function SegmentValues(parts: seq<string>): (r: Result<seq<int>, VersionError>)
    ensures r.Ok? ==> |r.value| == |parts|
  {
    if parts == [] then Ok([])
    else match SegmentValue(parts[0])
      case Err(e) => Err(e)
      case Ok(n) => Prefixed([n], SegmentValues(parts[1..]))
  }

  function CutPrefix(s: string, prefix: string): string {
    if HasPrefix(s, prefix) then s[|prefix|..] else s
  }

  /** The numeric core of a version text: white space, a leading `v` and the metadata suffix removed. */
  function NumericCore(text: string): Result<string, VersionError> {
    var trimmed := TrimSpace(text);
    if trimmed == "" then Err(VersionRequired)
    else
      var s := CutPrefix(trimmed, "v");
      if s == "" then Err(MissingNumericVersion) else CutMetadata(s)
  }

  function CutMetadata(s: string): Result<string, VersionError> {
    var idx := IndexEither(s, '-', '+');
    if idx < 0 then Ok(s)
    else if idx == 0 then Err(MissingNumericVersion)
    else if idx == |s| - 1 then Err(EmptyMetadata)
    else Ok(s[..idx])
  }

  function Component(values: seq<int>, i: nat): int {
    if i < |values| then values[i] else 0
  }

  function FromComponents(values: seq<int>): Semver {
    Semver(Component(values, 0), Component(values, 1), Component(values, 2))
  }

  /** The version a text denotes. */
  function SemverOf(text: string): Result<Semver, VersionError> {
    match NumericCore(text)
    case Err(e) => Err(e)
    case Ok(core) =>
      SemverOfCore(core)
  }

  function SemverOfCore(core: string): Result<Semver, VersionError> {
    var parts := Split(core, '.');
    if |parts| > 3 then Err(TooManySegments)
    else match SegmentValues(parts)
      case Err(e) => Err(e)
      case Ok(values) => Ok(FromComponents(values))
  }

  /** `parseSemver`: the loop stores each segment in its component as it goes. */
  method ParseSemver(text: string) returns (r: Result<Semver, VersionError>)
    ensures r == SemverOf(text)
  {
    var s := TrimSpace(text);
    if s == "" { return Err(VersionRequired); }
    s := CutPrefix(s, "v");
    if s == "" { return Err(MissingNumericVersion); }
    var idx := IndexEither(s, '-', '+');
    if idx >= 0 {
      if idx == 0 { return Err(MissingNumericVersion); }
      if idx == |s| - 1 { return Err(EmptyMetadata); }
      s := s[..idx];
    }
    r := ParseSegments(s);
  }

  /** The dot-separated part of `parseSemver`. */
  method ParseSegments(core: string) returns (r: Result<Semver, VersionError>)
    ensures r == SemverOfCore(core)
  {
    var parts := Split(core, '.');
    if |parts| > 3 { return Err(TooManySegments); }
    var out := Semver(0, 0, 0);
    ghost var done := [];
    PrefixedEmpty(SegmentValues(parts));
    assert parts[0..] == parts;
    for i := 0 to |parts|
      invariant |done| == i && out == FromComponents(done)
      invariant SegmentValues(parts) == Prefixed(done, SegmentValues(parts[i..]))
    {
      var p := parts[i];
      assert parts[i..][0] == p && parts[i..][1..] == parts[i+1..];
      if p == "" { return Err(EmptyNumericSegment); }
      if TrimSpace(p) != p { return Err(SegmentHasWhitespace); }
      if |p| > 1 && HasPrefix(p, "0") { return Err(LeadingZero); }
      var parsed := Atoi(p);
      if parsed.None? { return Err(NotNumeric); }
      var n := parsed.value;
      if n < 0 { return Err(NegativeSegment); }
      out := if i == 0 then out.(major := n) else if i == 1 then out.(minor := n) else out.(patch := n);
      PrefixedStep(done, n, SegmentValues(parts[i+1..]));
      done := done + [n];
    }
    assert parts[|parts|..] == [] && done + [] == done;
    r := Ok(out);
  }

  /** A successful list with `done` in front of it; the first error otherwise. */
  function Prefixed<T>(done: seq<T>, r: Result<seq<T>, VersionError>): Result<seq<T>, VersionError> {
    match r
    case Err(e) => Err(e)
    case Ok(rest) => Ok(done + rest)
  }

  lemma PrefixedEmpty<T>(r: Result<seq<T>, VersionError>)
    ensures Prefixed([], r) == r
  {
    if r.Ok? { assert [] + r.value == r.value; }
  }

  lemma PrefixedStep<T>(done: seq<T>, x: T, r: Result<seq<T>, VersionError>)
    ensures Prefixed(done, Prefixed([x], r)) == Prefixed(done + [x], r)
  {
    if r.Ok? { assert done + ([x] + r.value) == done + [x] + r.value; }
  }

  /** How versions are written: an optional `v`, one to three canonical decimals, an optional suffix. */
  datatype VersionText = VersionText(v: bool, segments: seq<nat>, suffix: string)

  predicate WellFormed(t: VersionText) {
    && 1 <= |t.segments| <= 3
    && (forall n :: n in t.segments ==> n <= MAX_INT)
    && (t.suffix == "" || (|t.suffix| >= 2 && (t.suffix[0] == '-' || t.suffix[0] == '+')
                           && !IsSpace(t.suffix[|t.suffix| - 1])))
  }

  function Decimals(ns: seq<nat>): (parts: seq<string>)
    ensures |parts| == |ns|
    ensures forall i :: 0 <= i < |ns| ==> parts[i] == Decimal(ns[i])
  {
    if ns == [] then [] else [Decimal(ns[0])] + Decimals(ns[1..])
  }

  function Numerals(t: VersionText): string
    requires WellFormed(t)
  {
    Join(Decimals(t.segments), '.')
  }

  function Render(t: VersionText): string
    requires WellFormed(t)
  {
    (if t.v then "v" else "") + Numerals(t) + t.suffix
  }

  lemma {:induction false} JoinedDigits(ns: seq<nat>)
    requires |ns| >= 1
    ensures var s := Join(Decimals(ns), '.');
            s != [] && IsDigit(s[0]) && IsDigit(s[|s| - 1]) && forall c :: c in s ==> IsDigit(c) || c == '.'
  {
    if |ns| > 1 {
      JoinedDigits(ns[1..]);
      assert Decimals(ns)[1..] == Decimals(ns[1..]);
    }
  }

  lemma DecimalSegment(n: nat)
    requires n <= MAX_INT
    ensures SegmentValue(Decimal(n)) == Ok(n)
  {
    var p := Decimal(n);
    DecimalRoundTrip(n);
    assert IsDigit(p[0]) && IsDigit(p[|p| - 1]);
    TrimmedFixpoint(p);
  }

  lemma {:induction false} SegmentsOfDecimals(ns: seq<nat>)
    requires forall n :: n in ns ==> n <= MAX_INT
    ensures SegmentValues(Decimals(ns)) == Ok(ns)
  {
    if ns != [] {
      var n := ns[0];
      assert n in ns && forall m :: m in ns[1..] ==> m in ns;
      DecimalSegment(n);
      SegmentsOfDecimals(ns[1..]);
      assert Decimals(ns)[1..] == Decimals(ns[1..]);
      assert [n] + ns[1..] == ns;
    }
  }

  predicate SuffixShape(suffix: string) {
    suffix == "" || (|suffix| >= 2 && (suffix[0] == '-' || suffix[0] == '+'))
  }

  lemma CutMetadataAppend(core: string, suffix: string)
    requires '-' !in core && '+' !in core && SuffixShape(suffix) && core != ""
    ensures CutMetadata(core + suffix) == Ok(core)
  {
    var s := core + suffix;
    var idx := IndexEither(s, '-', '+');
    if suffix == "" {
      assert s == core;
    } else {
      assert s[|core|] == suffix[0];
      assert s[..|core|] == core;
      assert idx >= 0;
      assert forall k :: 0 <= k < idx ==> s[..idx][k] == s[k];
      assert forall k :: 0 <= k < |core| ==> s[k] == core[k];
    }
  }

  lemma CutMetadataInverse(s: string) returns (suffix: string)
    requires CutMetadata(s).Ok?
    ensures var core := CutMetadata(s).value;
            s == core + suffix && SuffixShape(suffix) && '-' !in core && '+' !in core
  {
    var idx := IndexEither(s, '-', '+');
    suffix := if idx < 0 then "" else s[idx..];
  }

  lemma RenderTrimmed(t: VersionText)
    requires WellFormed(t)
    ensures Trimmed(Render(t)) && Render(t) != "" && CutPrefix(Render(t), "v") == Numerals(t) + t.suffix
    ensures Numerals(t) != "" && '-' !in Numerals(t) && '+' !in Numerals(t)
  {
    JoinedDigits(t.segments);
    DigitsAreNoSpace();
    var tail := Numerals(t) + t.suffix;
    hide Join, Decimals, Numerals, IsSpace, IsDigit, AllDigits;
    assert Render(t) == (if t.v then "v" else "") + tail;
    assert tail[0] == Numerals(t)[0];
    assert t.suffix == "" ==> tail == Numerals(t);
    if t.v {
      assert Render(t)[1..] == tail;
    } else {
      assert Render(t) == tail;
    }
  }

  lemma DigitsAreNoSpace()
    ensures forall c :: IsDigit(c) ==> !IsSpace(c) && c != 'v' && c != '-' && c != '+'
    ensures !IsSpace('v')
  {}

  lemma RenderedCore(t: VersionText, pre: string, post: string)
    requires WellFormed(t) && Blank(pre) && Blank(post)
    ensures NumericCore(pre + Render(t) + post) == Ok(Numerals(t))
  {
    RenderTrimmed(t);
    TrimSpacePad(pre, Render(t), post);
    CutMetadataAppend(Numerals(t), t.suffix);
  }

  /** Round trip: every written form of a version, padded with any white space, parses back to it. */
  lemma RenderParses(t: VersionText, pre: string, post: string)
    requires WellFormed(t) && Blank(pre) && Blank(post)
    ensures SemverOf(pre + Render(t) + post) == Ok(FromComponents(t.segments))
    ensures var v := SemverOf(pre + Render(t) + post).value;
            && v.major == t.segments[0]
            && v.minor == (if |t.segments| > 1 then t.segments[1] else 0)
            && v.patch == if |t.segments| > 2 then t.segments[2] else 0
  {
    RenderedCore(t, pre, post);
    var parts := Decimals(t.segments);
    forall p | p in parts ensures '.' !in p {
      var i :| 0 <= i < |parts| && parts[i] == p;
    }
    SplitJoin(parts, '.');
    SegmentsOfDecimals(t.segments);
  }

  lemma SegmentIsDecimal(p: string)
    requires SegmentValue(p).Ok? && '-' !in p && '+' !in p
    ensures 0 <= SegmentValue(p).value <= MAX_INT && Decimal(SegmentValue(p).value) == p
  {
    DecimalCanonical(p);
  }

  lemma {:induction false} SegmentsAreDecimals(parts: seq<string>) returns (ns: seq<nat>)
    requires SegmentValues(parts).Ok?
    requires forall p :: p in parts ==> '-' !in p && '+' !in p
    ensures ns == SegmentValues(parts).value && Decimals(ns) == parts
    ensures forall n :: n in ns ==> n <= MAX_INT
  {
    if parts == [] {
      ns := [];
    } else {
      SegmentIsDecimal(parts[0]);
      var rest := SegmentsAreDecimals(parts[1..]);
      ns := [SegmentValue(parts[0]).value] + rest;
    }
  }

  lemma {:induction false} JoinContains(parts: seq<string>, sep: char, i: nat, c: char)
    requires i < |parts| && c in parts[i]
    ensures c in Join(parts, sep)
  {
    if i > 0 { JoinContains(parts[1..], sep, i - 1, c); }
  }

  lemma CorePartsAreDecimals(core: string) returns (ns: seq<nat>)
    requires SemverOfCore(core).Ok? && '-' !in core && '+' !in core
    ensures 1 <= |ns| <= 3 && (forall n :: n in ns ==> n <= MAX_INT)
    ensures Join(Decimals(ns), '.') == core && SemverOfCore(core).value == FromComponents(ns)
  {
    var parts := Split(core, '.');
    JoinSplit(core, '.');
    forall p | p in parts ensures '-' !in p && '+' !in p {
      var i :| 0 <= i < |parts| && parts[i] == p;
      if '-' in p { JoinContains(parts, '.', i, '-'); }
      if '+' in p { JoinContains(parts, '.', i, '+'); }
    }
    ns := SegmentsAreDecimals(parts);
  }

  lemma RenderSplit(t: VersionText)
    requires WellFormed(t)
    ensures Render(t) == (if t.v then "v" else "") + (Numerals(t) + t.suffix)
  {}

  lemma ShapeFromCore(v: bool, s: string, last: char) returns (t: VersionText)
    requires CutMetadata(s).Ok? && SemverOfCore(CutMetadata(s).value).Ok?
    requires s != "" && s[|s| - 1] == last && !IsSpace(last)
    ensures WellFormed(t) && t.v == v && Numerals(t) + t.suffix == s
    ensures SemverOfCore(CutMetadata(s).value).value == FromComponents(t.segments)
  {
    hide SemverOfCore, CutMetadata;
    var core := CutMetadata(s).value;
    var suffix := CutMetadataInverse(s);
    var ns := CorePartsAreDecimals(core);
    t := VersionText(v, ns, suffix);
    assert suffix != "" ==> suffix[|suffix| - 1] == s[|s| - 1];
  }

  /** Nothing but a written version parses: the accepted texts are exactly the rendered ones. */
  lemma ParsedIsRendered(text: string) returns (t: VersionText)
    requires SemverOf(text).Ok?
    ensures WellFormed(t) && TrimSpace(text) == Render(t)
    ensures SemverOf(text).value == FromComponents(t.segments)
  {
    hide TrimSpace, Render, SemverOfCore, CutMetadata;
    var trimmed := TrimSpace(text);
    TrimSpaceIsTrimmed(text);
    var s := CutPrefix(trimmed, "v");
    assert trimmed == (if HasPrefix(trimmed, "v") then "v" else "") + s;
    t := ShapeFromCore(HasPrefix(trimmed, "v"), s, trimmed[|trimmed| - 1]);
    RenderSplit(t);
  }

  lemma ComponentsInRange(ns: seq<nat>)
    requires forall n :: n in ns ==> n <= MAX_INT
    ensures InRange(FromComponents(ns))
  {
    forall i: nat ensures 0 <= Component(ns, i) <= MAX_INT {
      if i < |ns| { assert ns[i] in ns; }
    }
  }

  /** Parsed versions are in range. */
  lemma ParsedInRange(text: string)
    requires SemverOf(text).Ok?
    ensures InRange(SemverOf(text).value)
  {
    var t := ParsedIsRendered(text);
    ComponentsInRange(t.segments);
  }

  // ---- Constraints ----

  datatype Op = Ge | Le | Eq | Ne | Gt | Lt

  datatype Comparator = Comparator(op: Op, want: Semver)

  function OpText(op: Op): string {
    match op
    case Ge => ">="
    case Le => "<="
    case Eq => "=="
    case Ne => "!="
    case Gt => ">"
    case Lt => "<"
  }

  predicate Accepts(c: Comparator, have: Semver) {
    var cmp := Cmp(have, c.want);
    match c.op
    case Eq => cmp == 0
    case Ne => cmp != 0
    case Gt => cmp > 0
    case Ge => cmp >= 0
    case Lt => cmp < 0
    case Le => cmp <= 0
  }

  function ConstraintSemver(s: string): Result<Semver, VersionError> {
    if TrimSpace(s) == "" then Err(MissingVersion) else SemverOf(s)
  }

  function CaretUpperBound(base: Semver): Semver {
    if base.major > 0 then Semver(Wrap(base.major + 1), 0, 0)
    else if base.minor > 0 then Semver(0, Wrap(base.minor + 1), 0)
    else Semver(0, 0, Wrap(base.patch + 1))
  }

  function TildeUpperBound(base: Semver): Semver {
    Semver(base.major, Wrap(base.minor + 1), 0)
  }

  function WithOp(op: Op, ver: Result<Semver, VersionError>): Result<Comparator, VersionError> {
    match ver
    case Err(e) => Err(e)
    case Ok(v) => Ok(Comparator(op, v))
  }

  /** `parseSingleComparator`: the two-character operators are tried before their one-character prefixes. */
  function SingleComparator(p: string): Result<Comparator, VersionError> {
    if HasPrefix(p, ">=") then WithOp(Ge, ConstraintSemver(p[2..]))
    else if HasPrefix(p, "<=") then WithOp(Le, ConstraintSemver(p[2..]))
    else if HasPrefix(p, "==") then WithOp(Eq, ConstraintSemver(p[2..]))
    else if HasPrefix(p, "!=") then WithOp(Ne, ConstraintSemver(p[2..]))
    else if HasPrefix(p, ">") then WithOp(Gt, ConstraintSemver(p[1..]))
    else if HasPrefix(p, "<") then WithOp(Lt, ConstraintSemver(p[1..]))
    else WithOp(Eq, ConstraintSemver(p))
  }

  function ListSegment(raw: string): Result<Comparator, VersionError> {
    var p := TrimSpace(raw);
    if p == "" then Err(EmptyConstraintSegment)
    else match SingleComparator(p)
      case Err(e) => Err(InvalidConstraintSegment(e))
      case Ok(c) => Ok(c)
  }

  function ComparatorList(parts: seq<string>): Result<seq<Comparator>, VersionError> {
    if parts == [] then Ok([])
    else match ListSegment(parts[0])
      case Err(e) => Err(e)
      case Ok(c) => Prefixed([c], ComparatorList(parts[1..]))
  }

  /** The comparators a constraint text denotes. */
  function ConstraintOf(constraint: string): Result<seq<Comparator>, VersionError> {
    var c := TrimSpace(constraint);
    if c == "" || c == "*" then Ok([])
    else if HasPrefix(c, "^") then
      match ConstraintSemver(c[1..])
      case Err(e) => Err(e)
      case Ok(base) => Ok([Comparator(Ge, base), Comparator(Lt, CaretUpperBound(base))])
    else if HasPrefix(c, "~") then
      match ConstraintSemver(c[1..])
      case Err(e) => Err(e)
      case Ok(base) => Ok([Comparator(Ge, base), Comparator(Lt, TildeUpperBound(base))])
    else ComparatorList(Split(c, ','))
  }

  /** `parseVersionConstraint`. */
  method ParseVersionConstraint(constraint: string) returns (r: Result<seq<Comparator>, VersionError>)
    ensures r == ConstraintOf(constraint)
  {
    var c := TrimSpace(constraint);
    if c == "" || c == "*" { return Ok([]); }
    if HasPrefix(c, "^") {
      var base := ConstraintSemver(c[1..]);
      if base.Err? { return Err(base.error); }
      return Ok([Comparator(Ge, base.value), Comparator(Lt, CaretUpperBound(base.value))]);
    }
    if HasPrefix(c, "~") {
      var base := ConstraintSemver(c[1..]);
      if base.Err? { return Err(base.error); }
      return Ok([Comparator(Ge, base.value), Comparator(Lt, TildeUpperBound(base.value))]);
    }
    r := ParseComparators(Split(c, ','));
  }

  /** The loop of `parseVersionConstraint` over the comma-separated segments. */
  method ParseComparators(parts: seq<string>) returns (r: Result<seq<Comparator>, VersionError>)
    ensures r == ComparatorList(parts)
  {
    var out := [];
    PrefixedEmpty(ComparatorList(parts));
    assert parts[0..] == parts;
    for i := 0 to |parts|
      invariant ComparatorList(parts) == Prefixed(out, ComparatorList(parts[i..]))
    {
      assert parts[i..][0] == parts[i] && parts[i..][1..] == parts[i+1..];
      var p := TrimSpace(parts[i]);
      if p == "" { return Err(EmptyConstraintSegment); }
      var comp := SingleComparator(p);
      if comp.Err? { return Err(InvalidConstraintSegment(comp.error)); }
      PrefixedStep(out, comp.value, ComparatorList(parts[i+1..]));
      out := out + [comp.value];
    }
    assert parts[|parts|..] == [] && out + [] == out;
    r := Ok(out);
  }

  /** `MatchesVersion`. */
  function MatchesVersion(producer: string, constraint: string): Result<bool, VersionError> {
    match ConstraintOf(constraint)
    case Err(e) => Err(e)
    case Ok(parsed) =>
      match SemverOf(producer)
      case Err(e) => Err(InvalidProducerVersion(e))
      case Ok(have) => Ok(forall c :: c in parsed ==> Accepts(c, have))
  }

  predicate ValidVersion(version: string) {
    SemverOf(version).Ok?
  }

  predicate ValidConstraint(constraint: string) {
    ConstraintOf(constraint).Ok?
  }

  lemma MatchDefined(producer: string, constraint: string)
    ensures MatchesVersion(producer, constraint).Ok? <==> ValidVersion(producer) && ValidConstraint(constraint)
  {}

  /** What each operator accepts, in terms of precedence. */
  lemma AcceptsMeaning(c: Comparator, v: Semver)
    requires InRange(v) && InRange(c.want)
    ensures Accepts(c, v) <==> match c.op
                               case Eq => v == c.want
                               case Ne => v != c.want
                               case Ge => AtLeast(v, c.want)
                               case Gt => Precedes(c.want, v)
                               case Le => AtLeast(c.want, v)
                               case Lt => Precedes(v, c.want)
  {
    CmpIsPrecedence(v, c.want);
  }

  /** v agrees with b on every component up to and including b's first nonzero one. */
  predicate AgreesToFirstNonzero(v: Semver, b: Semver) {
    && v.major == b.major
    && (b.major == 0 ==> v.minor == b.minor)
    && (b.major == 0 && b.minor == 0 ==> v.patch == b.patch)
  }

  /** Below the (possibly wrapped) upper bound of a caret range. The wrapped bound of the greatest
      component compares as if it had not wrapped, because the comparison wraps a second time. */
  lemma BelowCaret(v: Semver, b: Semver)
    requires InRange(v) && InRange(b) && AtLeast(v, b)
    ensures Cmp(v, CaretUpperBound(b)) < 0 <==> AgreesToFirstNonzero(v, b)
  {
    if b.major > 0 {
      BelowMajor(v, b);
    } else if b.minor > 0 {
      BelowMinor(v, b);
    } else {
      BelowPatch(v, b);
    }
  }

  lemma BelowMajor(v: Semver, b: Semver)
    requires InRange(v) && InRange(b) && b.major <= v.major
    ensures Cmp(v, Semver(Wrap(b.major + 1), 0, 0)) < 0 <==> v.major == b.major
  {
    BelowNext(v.major, b.major);
    SameThenSmall(v);
  }

  lemma BelowMinor(v: Semver, b: Semver)
    requires InRange(v) && InRange(b) && (v.major == 0 ==> b.minor <= v.minor)
    ensures Cmp(v, Semver(0, Wrap(b.minor + 1), 0)) < 0 <==> v.major == 0 && v.minor == b.minor
  {
    SameThenSmall(v);
    if v.major == 0 { BelowNext(v.minor, b.minor); }
  }

  lemma BelowPatch(v: Semver, b: Semver)
    requires InRange(v) && InRange(b) && (v.major == 0 && v.minor == 0 ==> b.patch <= v.patch)
    ensures Cmp(v, Semver(0, 0, Wrap(b.patch + 1))) < 0 <==> v.major == 0 && v.minor == 0 && v.patch == b.patch
  {
    SameThenSmall(v);
    if v.major == 0 && v.minor == 0 { BelowNext(v.patch, b.patch); }
  }

  lemma SameThenSmall(v: Semver)
    requires InRange(v)
    ensures Wrap(v.major - 0) == v.major && Wrap(v.minor - 0) == v.minor && Wrap(v.patch - 0) == v.patch
  {
    WrapSmall(v.major);
    WrapSmall(v.minor);
    WrapSmall(v.patch);
  }

  lemma BelowNext(x: int, y: int)
    requires 0 <= y <= x <= MAX_INT
    ensures x != Wrap(y + 1) ==> (Wrap(x - Wrap(y + 1)) < 0 <==> x == y)
    ensures x == Wrap(y + 1) ==> x != y
  {
    if y == MAX_INT {
      WrapOver(y + 1);
      WrapOver(x - Wrap(y + 1));
    } else {
      WrapSmall(y + 1);
      WrapSmall(x - Wrap(y + 1));
    }
  }

  lemma BelowTilde(v: Semver, b: Semver)
    requires InRange(v) && InRange(b) && AtLeast(v, b)
    ensures Cmp(v, TildeUpperBound(b)) < 0 <==> v.major == b.major && v.minor == b.minor
  {
    WrapSmall(v.major - b.major);
    if v.major == b.major {
      BelowNext(v.minor, b.minor);
    }
    WrapSmall(v.patch - 0);
  }

  lemma PairMeaning(c: Comparator, d: Comparator, v: Semver)
    ensures (forall x :: x in [c, d] ==> Accepts(x, v)) <==> Accepts(c, v) && Accepts(d, v)
  {
    assert c in [c, d] && d in [c, d];
  }

  lemma VersionNotBlank(text: string)
    requires ValidVersion(text)
    ensures ConstraintSemver(text) == SemverOf(text)
  {}

  lemma RangeConstraint(constraint: string, base: string)
    requires ValidVersion(base)
    ensures TrimSpace(constraint) == "^" + base ==>
              ConstraintOf(constraint) == Ok([Comparator(Ge, SemverOf(base).value),
                                              Comparator(Lt, CaretUpperBound(SemverOf(base).value))])
    ensures TrimSpace(constraint) == "~" + base ==>
              ConstraintOf(constraint) == Ok([Comparator(Ge, SemverOf(base).value),
                                              Comparator(Lt, TildeUpperBound(SemverOf(base).value))])
  {
    VersionNotBlank(base);
    hide SemverOf, ConstraintSemver, ValidVersion, CaretUpperBound, TildeUpperBound, ComparatorList, Split, TrimSpace;
    var c := TrimSpace(constraint);
    if c == "^" + base {
      assert c[0] == '^' && c[1..] == base && HasPrefix(c, "^");
    }
    if c == "~" + base {
      assert c[0] == '~' && c[1..] == base && HasPrefix(c, "~") && !HasPrefix(c, "^");
    }
  }

  lemma MatchesList(producer: string, constraint: string, cs: seq<Comparator>)
    requires ValidVersion(producer) && ConstraintOf(constraint) == Ok(cs)
    ensures MatchesVersion(producer, constraint) == Ok(forall c :: c in cs ==> Accepts(c, SemverOf(producer).value))
  {}

  /** `^b` matches v exactly when v is at least b and agrees with b up to b's first nonzero component. */
  lemma CaretMeaning(producer: string, constraint: string, base: string, v: Semver, b: Semver)
    requires SemverOf(producer) == Ok(v) && SemverOf(base) == Ok(b)
    requires TrimSpace(constraint) == "^" + base
    ensures MatchesVersion(producer, constraint) == Ok(AtLeast(v, b) && AgreesToFirstNonzero(v, b))
  {
    ParsedInRange(producer);
    ParsedInRange(base);
    RangeConstraint(constraint, base);
    MatchesList(producer, constraint, [Comparator(Ge, b), Comparator(Lt, CaretUpperBound(b))]);
    CaretRange(v, b);
  }

  lemma CaretRange(v: Semver, b: Semver)
    requires InRange(v) && InRange(b)
    ensures (forall c :: c in [Comparator(Ge, b), Comparator(Lt, CaretUpperBound(b))] ==> Accepts(c, v))
        <==> AtLeast(v, b) && AgreesToFirstNonzero(v, b)
  {
    AcceptsMeaning(Comparator(Ge, b), v);
    if AtLeast(v, b) { BelowCaret(v, b); }
    PairMeaning(Comparator(Ge, b), Comparator(Lt, CaretUpperBound(b)), v);
  }

  /** `~b` matches v exactly when v is at least b and has b's major and minor. */
  lemma TildeMeaning(producer: string, constraint: string, base: string, v: Semver, b: Semver)
    requires SemverOf(producer) == Ok(v) && SemverOf(base) == Ok(b)
    requires TrimSpace(constraint) == "~" + base
    ensures MatchesVersion(producer, constraint) == Ok(AtLeast(v, b) && v.major == b.major && v.minor == b.minor)
  {
    ParsedInRange(producer);
    ParsedInRange(base);
    RangeConstraint(constraint, base);
    MatchesList(producer, constraint, [Comparator(Ge, b), Comparator(Lt, TildeUpperBound(b))]);
    TildeRange(v, b);
  }

  lemma TildeRange(v: Semver, b: Semver)
    requires InRange(v) && InRange(b)
    ensures (forall c :: c in [Comparator(Ge, b), Comparator(Lt, TildeUpperBound(b))] ==> Accepts(c, v))
        <==> AtLeast(v, b) && v.major == b.major && v.minor == b.minor
  {
    AcceptsMeaning(Comparator(Ge, b), v);
    if AtLeast(v, b) { BelowTilde(v, b); }
    PairMeaning(Comparator(Ge, b), Comparator(Lt, TildeUpperBound(b)), v);
  }

  /** Constraint texts read as comma-separated lists: neither empty nor `*` nor a caret or tilde range. */
  predicate IsList(constraint: string) {
    var c := TrimSpace(constraint);
    c != "" && c != "*" && !HasPrefix(c, "^") && !HasPrefix(c, "~")
  }

  /** Each comparator text denotes its operator applied to the version written after it. */
  lemma ComparatorText(op: Op, base: string)
    requires ValidVersion(base)
    ensures SingleComparator(OpText(op) + base) == Ok(Comparator(op, SemverOf(base).value))
  {
    VersionNotBlank(base);
    OperandStart(base);
    hide SemverOf, ConstraintSemver, ValidVersion;
    var c := OpText(op) + base;
    match op
    case Eq => assert c[2..] == base;
    case Ne => assert c[2..] == base;
    case Ge => assert c[2..] == base;
    case Le => assert c[2..] == base;
    case Gt => assert c[1..] == base && c[1] == base[0];
    case Lt => assert c[1..] == base && c[1] == base[0];
  }

  /** A version text does not begin with `=`, so `>` and `<` are never taken for `>=` and `<=`. */
  lemma OperandStart(base: string)
    requires ValidVersion(base)
    ensures base != [] && base[0] != '='
  {
    var t := ParsedIsRendered(base);
    JoinedDigits(t.segments);
    assert Render(t)[0] != '=';
    if base[0] == '=' {
      TrimRightIsTrimmed(base);
    }
  }

  /** The empty constraint and `*` match every valid version. */
  lemma AnyVersionMatches(producer: string, constraint: string)
    requires TrimSpace(constraint) == "" || TrimSpace(constraint) == "*"
    ensures ValidConstraint(constraint)
    ensures ValidVersion(producer) ==> MatchesVersion(producer, constraint) == Ok(true)
  {}

  /** A range is well formed exactly if what follows its sign is a version. */
  lemma RangeValidIff(constraint: string, base: string)
    requires TrimSpace(constraint) == "^" + base || TrimSpace(constraint) == "~" + base
    ensures ValidConstraint(constraint) <==> ValidVersion(base)
  {
    hide TrimSpace, ComparatorList, Split, SemverOfCore, CutMetadata;
    var c := TrimSpace(constraint);
    assert c[1..] == base && c[0] != '*';
    if c[0] == '^' {
      assert HasPrefix(c, "^");
    } else {
      assert HasPrefix(c, "~") && !HasPrefix(c, "^");
    }
  }

  /** How the operator is written, or nothing, which means equality. */
  function OperatorText(op: Option<Op>): string {
    match op
    case None => ""
    case Some(o) => OpText(o)
  }

  lemma BareStart(base: string)
    requires ValidVersion(base) && Trimmed(base)
    ensures base != [] && (IsDigit(base[0]) || base[0] == 'v')
  {
    var t := ParsedIsRendered(base);
    TrimmedFixpoint(base);
    JoinedDigits(t.segments);
    hide TrimSpace, Trimmed, SemverOf, Join, Decimals;
    RenderSplit(t);
    assert Render(t)[0] == if t.v then 'v' else Numerals(t)[0];
  }

  lemma OneComparator(op: Option<Op>, base: string)
    requires ValidVersion(base) && Trimmed(OperatorText(op) + base)
    ensures var c := OperatorText(op) + base;
            && c != "" && c[0] != '*' && c[0] != '^' && c[0] != '~'
            && SingleComparator(c) == Ok(Comparator(if op.Some? then op.value else Eq, SemverOf(base).value))
  {
    hide ValidVersion, SemverOf, ConstraintSemver, SingleComparator, Trimmed;
    var c := OperatorText(op) + base;
    if op.Some? {
      ComparatorText(op.value, base);
      assert c[0] == OpText(op.value)[0];
    } else {
      assert c == base;
      BareComparator(base);
    }
  }

  lemma BareComparator(base: string)
    requires ValidVersion(base) && Trimmed(base)
    ensures base != "" && base[0] != '*' && base[0] != '^' && base[0] != '~'
    ensures SingleComparator(base) == Ok(Comparator(Eq, SemverOf(base).value))
  {
    VersionNotBlank(base);
    BareStart(base);
    hide ValidVersion, SemverOf, ConstraintSemver, Trimmed;
    assert base[0] != '>' && base[0] != '<' && base[0] != '=' && base[0] != '!';
  }

  lemma SingleSegment(c: string, x: Comparator)
    requires Trimmed(c) && c != "" && c[0] != '*' && c[0] != '^' && c[0] != '~' && ',' !in c
    requires SingleComparator(c) == Ok(x)
    ensures ConstraintOf(c) == Ok([x])
  {
    hide SingleComparator, TrimSpace;
    TrimmedFixpoint(c);
    SplitNone(c, ',');
    assert ComparatorList([c]) == Prefixed([x], ComparatorList([c][1..]));
    assert [c][1..] == [] && [x] + [] == [x];
    assert !HasPrefix(c, "^") && !HasPrefix(c, "~");
  }

  lemma TrimmedConstraint(constraint: string)
    ensures ConstraintOf(TrimSpace(constraint)) == ConstraintOf(constraint) && Trimmed(TrimSpace(constraint))
  {
    TrimSpaceIsTrimmed(constraint);
    TrimmedFixpoint(TrimSpace(constraint));
  }

  /** What a version written after an operator, or bare, accepts. */
  lemma OperatorMeaning(producer: string, constraint: string, op: Option<Op>, base: string, v: Semver, b: Semver)
    requires SemverOf(producer) == Ok(v) && SemverOf(base) == Ok(b) && ',' !in base
    requires TrimSpace(constraint) == OperatorText(op) + base
    ensures MatchesVersion(producer, constraint)
         == Ok(match op
               case None => v == b
               case Some(Eq) => v == b
               case Some(Ne) => v != b
               case Some(Ge) => AtLeast(v, b)
               case Some(Gt) => Precedes(b, v)
               case Some(Le) => AtLeast(b, v)
               case Some(Lt) => Precedes(v, b))
  {
    hide TrimSpace, Trimmed, SemverOf, SingleComparator, ConstraintOf, AtLeast, Precedes, Accepts, InRange;
    ParsedInRange(producer);
    ParsedInRange(base);
    TrimmedConstraint(constraint);
    OneComparator(op, base);
    var x := Comparator(if op.Some? then op.value else Eq, b);
    SingleSegment(TrimSpace(constraint), x);
    MatchesList(producer, constraint, [x]);
    AcceptsMeaning(x, v);
    assert x in [x];
  }

  /** The list condition: every comma-separated segment accepts v. */
  predicate AllSegmentsAccept(parts: seq<string>, v: Semver) {
    forall p :: p in parts ==> ListSegment(p).Ok? && Accepts(ListSegment(p).value, v)
  }

  lemma {:induction false} ComparatorListMeaning(parts: seq<string>, v: Semver)
    ensures ComparatorList(parts).Ok? <==> forall p :: p in parts ==> ListSegment(p).Ok?
    ensures ComparatorList(parts).Ok? ==>
              ((forall c :: c in ComparatorList(parts).value ==> Accepts(c, v)) <==> AllSegmentsAccept(parts, v))
  {
    hide ListSegment, Accepts;
    if parts != [] {
      ComparatorListMeaning(parts[1..], v);
      assert parts == [parts[0]] + parts[1..];
    }
  }

  /** A comma-separated list matches exactly the intersection of what its two halves match, wherever
      it is cut, and is malformed exactly when one of them is. */
  lemma ListIsIntersection(producer: string, a: string, b: string, whole: string)
    requires ValidVersion(producer) && IsList(a) && IsList(b)
    requires TrimSpace(whole) == TrimSpace(a) + "," + TrimSpace(b)
    ensures ValidConstraint(whole) <==> ValidConstraint(a) && ValidConstraint(b)
    ensures ValidConstraint(whole) ==>
              MatchesVersion(producer, whole)
              == Ok(MatchesVersion(producer, a).value && MatchesVersion(producer, b).value)
  {
    var v := SemverOf(producer).value;
    var pa, pb := Split(TrimSpace(a), ','), Split(TrimSpace(b), ',');
    SplitAppend(TrimSpace(a), ',', TrimSpace(b));
    ListMatch(producer, a, v);
    ListMatch(producer, b, v);
    ListMatch(producer, whole, v);
    assert forall p :: p in pa + pb <==> p in pa || p in pb;
  }

  lemma ListMatch(producer: string, constraint: string, v: Semver)
    requires SemverOf(producer) == Ok(v) && IsList(constraint)
    ensures ValidConstraint(constraint) <==> forall p :: p in Split(TrimSpace(constraint), ',') ==> ListSegment(p).Ok?
    ensures ValidConstraint(constraint) ==>
              MatchesVersion(producer, constraint) == Ok(AllSegmentsAccept(Split(TrimSpace(constraint), ','), v))
  {
    ComparatorListMeaning(Split(TrimSpace(constraint), ','), v);
  }
}
