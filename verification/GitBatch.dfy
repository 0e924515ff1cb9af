/**
 Reading the output of `git cat-file --batch`: one header line per requested path, the
 announced number of content bytes, and a newline.
 */
module GitBatch {
  import opened Decimals
  import opened Outcomes
  import opened Sorting

  const NEWLINE: Byte := 10
  const SPACE: Byte := 32
  const PLUS: Byte := 43
  const MINUS: Byte := 45

  /** The ASCII bytes of " missing". */
  const MISSING: Bytes := [32, 109, 105, 115, 115, 105, 110, 103]

  datatype Path = Path(name: string)

  datatype BatchError = NoHeader(path: Path) | MissingPath(path: Path) | InvalidSize(path: Path) | Truncated(path: Path)

  // ---------------------------------------------------------------- header lines

  /** The first occurrence of `b` at or after `from`. */
  function IndexOf(s: Bytes, b: Byte, from: nat): (r: Option<nat>)
    ensures r.Some? ==> from <= r.value < |s|
    decreases |s| - from
  {
    if from >= |s| then None else if s[from] == b then Some(from) else IndexOf(s, b, from + 1)
  }

  lemma {:induction false} IndexOfFinds(s: Bytes, b: Byte, from: nat)
    ensures var r := IndexOf(s, b, from);
            && (r.Some? ==> s[r.value] == b && b !in s[from..r.value])
            && (r.None? && from <= |s| ==> b !in s[from..])
    decreases |s| - from
  {
    if from < |s| && s[from] != b {
      IndexOfFinds(s, b, from + 1);
      var r := IndexOf(s, b, from + 1);
      assert s[from..] == [s[from]] + s[from + 1..];
      assert r.Some? ==> s[from..r.value] == [s[from]] + s[from + 1..r.value];
    }
  }

  lemma {:induction false} FirstAt(s: Bytes, b: Byte, from: nat, field: Bytes)
    requires from + |field| < |s| && s[from..from + |field|] == field && b !in field
    requires s[from + |field|] == b
    ensures IndexOf(s, b, from) == Some(from + |field|)
    decreases |field|
  {
    if field != [] {
      assert s[from] == field[0];
      assert s[from + 1..from + |field|] == field[1..];
      FirstAt(s, b, from + 1, field[1..]);
    }
  }

  predicate EndsWith(s: Bytes, suffix: Bytes) {
    |s| >= |suffix| && s[|s| - |suffix|..] == suffix
  }

  /** The `n`-th of the fields that single spaces separate, counting from zero. */
  function Field(s: Bytes, n: nat): Option<Bytes>
    decreases n
  {
    var space := IndexOf(s, SPACE, 0);
    if n == 0 then Some(if space.Some? then s[..space.value] else s)
    else if space.None? then None
    else Field(s[space.value + 1..], n - 1)
  }

  predicate Whitespace(b: Byte) {
    9 <= b <= 13 || b == SPACE
  }

  function SkipWhitespace(s: Bytes): Bytes {
    if s != [] && Whitespace(s[0]) then SkipWhitespace(s[1..]) else s
  }

  /** `Number.parseInt(s, 10)`: white space, a sign, then as many digits as there are; none is NaN. */
  function ParseInt(s: Bytes): Option<int> {
    var t := SkipWhitespace(s);
    var signed := t != [] && (t[0] == PLUS || t[0] == MINUS);
    var u := if signed then t[1..] else t;
    var digits := u[..DigitRun(u)];
    if digits == [] then None
    else
      var magnitude: int := Value(digits);
      Some(if signed && t[0] == MINUS then -magnitude else magnitude)
  }

  /** The content size that a header announces, when it announces a usable one. */
  function HeaderSize(header: Bytes): (size: Option<nat>) {
    var field := Field(header, 2);
    var size := ParseInt(if field.Some? then field.value else []);
    if size.None? || size.value > MAX_SAFE_INTEGER || size.value < 0 then None else Some(size.value)
  }

  /** What a header line says: that the object is missing, its size, or nothing usable. */
  datatype HeaderLine = Missing | NoSize | Announces(size: nat)

  function ParseHeader(header: Bytes): HeaderLine {
    if EndsWith(header, MISSING) then Missing
    else
      match HeaderSize(header)
      case None => NoSize
      case Some(size) => Announces(size)
  }

  lemma FieldBehindSpace(field: Bytes, rest: Bytes, n: nat)
    requires SPACE !in field
    ensures Field(field + [SPACE] + rest, 0) == Some(field)
    ensures Field(field + [SPACE] + rest, n + 1) == Field(rest, n)
  {
    var s := field + [SPACE] + rest;
    FirstAt(s, SPACE, 0, field);
    assert s[|field| + 1..] == rest;
  }

  lemma {:induction false} NoSpaceInDigits(ds: Bytes, from: nat)
    requires AllDigits(ds)
    ensures IndexOf(ds, SPACE, from) == None
    decreases |ds| - from
  {
    if from < |ds| {
      NoSpaceInDigits(ds, from + 1);
    }
  }

  lemma ParsesDecimal(n: nat)
    ensures ParseInt(Decimal(n)) == Some(n)
  {
    var ds := Decimal(n);
    ValueOfDecimal(n);
    assert IsDigit(ds[0]);
    assert SkipWhitespace(ds) == ds;
    DigitRunOf(ds, []);
    assert ds + [] == ds && ds[..|ds|] == ds;
  }

  lemma EndsInDigit(front: Bytes, ds: Bytes)
    requires ds != [] && AllDigits(ds)
    ensures !EndsWith(front + ds, MISSING)
  {
    var s := front + ds;
    assert s[|s| - 1] == ds[|ds| - 1] && IsDigit(ds[|ds| - 1]);
    assert |s| >= |MISSING| ==> s[|s| - |MISSING|..][|MISSING| - 1] == s[|s| - 1];
  }

  /** The header that git prints for an object: its id, its kind and its size. */
  function GitHeader(oid: Bytes, kind: Bytes, size: nat): Bytes {
    oid + [SPACE] + (kind + [SPACE] + Decimal(size))
  }

  lemma GitHeaderAnnounces(oid: Bytes, kind: Bytes, size: nat)
    requires SPACE !in oid && SPACE !in kind && size <= MAX_SAFE_INTEGER
    ensures ParseHeader(GitHeader(oid, kind, size)) == Announces(size)
  {
    var header, tail := GitHeader(oid, kind, size), kind + [SPACE] + Decimal(size);
    EndsInDigit(oid + [SPACE] + (kind + [SPACE]), Decimal(size));
    assert header == oid + [SPACE] + (kind + [SPACE]) + Decimal(size);
    FieldBehindSpace(oid, tail, 1);
    FieldBehindSpace(kind, Decimal(size), 0);
    NoSpaceInDigits(Decimal(size), 0);
    assert Field(header, 2) == Some(Decimal(size));
    ParsesDecimal(size);
  }

  ghost predicate AllWhitespace(s: Bytes) {
    forall i :: 0 <= i < |s| ==> Whitespace(s[i])
  }

  lemma {:induction false} SkippedWhitespace(s: Bytes) returns (space: Bytes)
    ensures s == space + SkipWhitespace(s) && AllWhitespace(space)
    ensures SkipWhitespace(s) != [] ==> !Whitespace(SkipWhitespace(s)[0])
  {
    space := [];
    if s != [] && Whitespace(s[0]) {
      var behind := SkippedWhitespace(s[1..]);
      space := [s[0]] + behind;
    }
  }

  lemma {:induction false} SkipsWhitespace(space: Bytes, rest: Bytes)
    requires AllWhitespace(space) && (rest == [] || !Whitespace(rest[0]))
    ensures SkipWhitespace(space + rest) == rest
  {
    if space == [] {
      assert space + rest == rest;
    } else {
      assert Whitespace(space[0]) && (space + rest)[1..] == space[1..] + rest;
      assert AllWhitespace(space[1..]);
      SkipsWhitespace(space[1..], rest);
    }
  }

  /** White space, at most a sign, and all the digits that follow, which are at least one. */
  ghost predicate Numeral(s: Bytes, space: Bytes, sign: Bytes, digits: Bytes, rest: Bytes) {
    && s == space + (sign + (digits + rest))
    && AllWhitespace(space) && (sign == [] || sign == [PLUS] || sign == [MINUS])
    && digits != [] && AllDigits(digits) && (rest == [] || !IsDigit(rest[0]))
  }

  function Signed(sign: Bytes, magnitude: nat): int {
    if sign == [MINUS] then -(magnitude as int) else magnitude
  }

  /** Text is read as a number exactly when a numeral begins it. */
  lemma NumeralParses(s: Bytes, space: Bytes, sign: Bytes, digits: Bytes, rest: Bytes)
    requires Numeral(s, space, sign, digits, rest)
    ensures ParseInt(s) == Some(Signed(sign, Value(digits)))
  {
    var u := digits + rest;
    assert u[0] == digits[0] && IsDigit(digits[0]);
    SignBefore(sign, u);
    SkipsWhitespace(space, sign + u);
    DigitRunOf(digits, rest);
    assert u[..|digits|] == digits;
  }

  lemma SignBefore(sign: Bytes, u: Bytes)
    requires u != [] && IsDigit(u[0]) && (sign == [] || sign == [PLUS] || sign == [MINUS])
    ensures var t := sign + u;
            && !Whitespace(t[0]) && (t[0] == PLUS || t[0] == MINUS <==> sign != [])
            && (t[0] == MINUS <==> sign == [MINUS])
            && u == if sign == [] then t else t[1..]
  {
    assert sign == [] ==> sign + u == u;
  }

  lemma DigitsFirst(u: Bytes) returns (digits: Bytes, rest: Bytes)
    ensures u == digits + rest && digits == u[..DigitRun(u)]
    ensures AllDigits(digits) && (rest == [] || !IsDigit(rest[0]))
  {
    digits, rest := u[..DigitRun(u)], u[DigitRun(u)..];
  }

  lemma ParsedNumeral(s: Bytes) returns (space: Bytes, sign: Bytes, digits: Bytes, rest: Bytes)
    requires ParseInt(s).Some?
    ensures Numeral(s, space, sign, digits, rest)
  {
    space := SkippedWhitespace(s);
    var t := SkipWhitespace(s);
    var signed := t != [] && (t[0] == PLUS || t[0] == MINUS);
    sign := if signed then t[..1] else [];
    var u := if signed then t[1..] else t;
    assert t == sign + u;
    digits, rest := DigitsFirst(u);
  }

  /** `field` is the third of the fields that single spaces separate; `behind` is what follows it. */
  ghost predicate ThirdField(header: Bytes, oid: Bytes, kind: Bytes, field: Bytes, behind: Bytes) {
    && header == oid + [SPACE] + (kind + [SPACE] + (field + behind))
    && SPACE !in oid && SPACE !in kind && SPACE !in field && (behind == [] || behind[0] == SPACE)
  }

  lemma {:induction false} NoSpace(s: Bytes, from: nat)
    requires from <= |s| && SPACE !in s[from..]
    ensures IndexOf(s, SPACE, from) == None
    decreases |s| - from
  {
    if from < |s| {
      assert s[from..] == [s[from]] + s[from + 1..];
      NoSpace(s, from + 1);
    }
  }

  lemma FirstField(field: Bytes, behind: Bytes)
    requires SPACE !in field && (behind == [] || behind[0] == SPACE)
    ensures Field(field + behind, 0) == Some(field)
  {
    if behind == [] {
      assert field + behind == field && field[0..] == field;
      NoSpace(field, 0);
    } else {
      assert field + behind == field + [SPACE] + behind[1..];
      FieldBehindSpace(field, behind[1..], 0);
    }
  }

  lemma ThirdFieldIs(header: Bytes, oid: Bytes, kind: Bytes, field: Bytes, behind: Bytes)
    requires ThirdField(header, oid, kind, field, behind)
    ensures Field(header, 2) == Some(field)
  {
    FieldBehindSpace(oid, kind + [SPACE] + (field + behind), 1);
    FieldBehindSpace(kind, field + behind, 0);
    FirstField(field, behind);
  }

  lemma BehindSpace(s: Bytes, i: nat)
    requires i < |s| && s[i] == SPACE
    ensures s[i..][1..] == s[i + 1..] && s == s[..i] + [SPACE] + s[i + 1..]
  {
  }

  /** A text up to its first space, and what begins with that space. */
  lemma UpToSpace(s: Bytes) returns (field: Bytes, behind: Bytes)
    ensures s == field + behind && SPACE !in field && (behind == [] || behind[0] == SPACE)
    ensures behind == [] <==> IndexOf(s, SPACE, 0) == None
    ensures behind != [] ==>
              IndexOf(s, SPACE, 0) == Some(|field|) && s[|field| + 1..] == behind[1..] &&
              s == field + [SPACE] + behind[1..]
  {
    IndexOfFinds(s, SPACE, 0);
    var space := IndexOf(s, SPACE, 0);
    var end := if space.Some? then space.value else |s|;
    field, behind := s[..end], s[end..];
    assert s[0..end] == field && s[0..] == s;
    if space.Some? {
      BehindSpace(s, end);
    }
  }

  lemma ThirdFieldFound(header: Bytes) returns (oid: Bytes, kind: Bytes, field: Bytes, behind: Bytes)
    requires Field(header, 2).Some?
    ensures ThirdField(header, oid, kind, field, behind)
  {
    var tail, last;
    oid, tail := UpToSpace(header);
    assert tail != [] && Field(tail[1..], 1).Some?;
    kind, last := UpToSpace(tail[1..]);
    assert last != [];
    field, behind := UpToSpace(last[1..]);
  }

  /** The third field of the header begins with a numeral of this value. */
  ghost predicate SpellsSize(header: Bytes, value: int) {
    exists oid, kind, field, behind, space, sign, digits, rest ::
      ThirdField(header, oid, kind, field, behind) && Numeral(field, space, sign, digits, rest)
      && value == Signed(sign, Value(digits))
  }

  lemma SizeSpelledIff(header: Bytes, value: int)
    ensures SpellsSize(header, value) <==> Field(header, 2).Some? && ParseInt(Field(header, 2).value) == Some(value)
  {
    forall oid, kind, field, behind, space, sign, digits, rest
      | ThirdField(header, oid, kind, field, behind) && Numeral(field, space, sign, digits, rest)
      ensures Field(header, 2).Some? && ParseInt(Field(header, 2).value) == Some(Signed(sign, Value(digits)))
    {
      ThirdFieldIs(header, oid, kind, field, behind);
      NumeralParses(field, space, sign, digits, rest);
    }
    if Field(header, 2).Some? && ParseInt(Field(header, 2).value) == Some(value) {
      var oid, kind, field, behind := ThirdFieldFound(header);
      ThirdFieldIs(header, oid, kind, field, behind);
      var space, sign, digits, rest := ParsedNumeral(field);
      NumeralParses(field, space, sign, digits, rest);
    }
  }

  /**
   What any header line says. It reports a missing object exactly when it ends in " missing". Any
   other announces a size exactly when its third field begins with a numeral of that value, not
   negative and a safe integer, whatever follows the digits; otherwise it gives no usable size.
   */
  lemma HeaderSays(header: Bytes, size: nat)
    ensures ParseHeader(header) == Missing <==>
            |header| >= 8 && header[|header| - 8..] == [32, 109, 105, 115, 115, 105, 110, 103]
    ensures ParseHeader(header) == Announces(size) <==>
            ParseHeader(header) != Missing && SpellsSize(header, size) && size <= 9007199254740991
    ensures ParseHeader(header) == NoSize <==>
            ParseHeader(header) != Missing && !exists n: nat :: n <= 9007199254740991 && SpellsSize(header, n)
  {
    SizeSpelledIff(header, size);
    assert ParseInt([]) == None;
    if ParseHeader(header).Announces? {
      SizeSpelledIff(header, ParseHeader(header).size);
    }
    forall n: nat | SpellsSize(header, n)
      ensures HeaderSize(header) == if n <= MAX_SAFE_INTEGER then Some(n) else None
    {
      SizeSpelledIff(header, n);
    }
  }

  /** Headers are parsed by a function, so that what follows holds for any header grammar. */
  type HeaderParser = Bytes -> HeaderLine

  /** `toString('utf8')`, which need not be reversible. */
  type Decoder = Bytes -> string

  // ---------------------------------------------------------------- the stream

  datatype Entry = Entry(header: Bytes, content: Bytes)

  /** A header line that announces exactly the content behind it. */
  ghost predicate WellFormed(entry: Entry, parse: HeaderParser) {
    NEWLINE !in entry.header && parse(entry.header) == Announces(|entry.content|)
  }

  ghost predicate AllWellFormed(entries: seq<Entry>, parse: HeaderParser) {
    forall i :: 0 <= i < |entries| ==> WellFormed(entries[i], parse)
  }

  function Printed(entry: Entry): Bytes {
    entry.header + [NEWLINE] + entry.content + [NEWLINE]
  }

  function Stream(entries: seq<Entry>): Bytes {
    if entries == [] then [] else Printed(entries[0]) + Stream(entries[1..])
  }

  function ContentsOf(entries: seq<Entry>): (contents: seq<Bytes>)
    ensures |contents| == |entries|
  {
    seq(|entries|, i requires 0 <= i < |entries| => entries[i].content)
  }

  // ---------------------------------------------------------------- the reader

  datatype Slice = Slice(start: nat, end: nat)

  /** Read one entry at `offset`: where its content lies. */
  function ReadEntry(output: Bytes, offset: nat, path: Path, parse: HeaderParser): (r: Result<Slice, BatchError>)
    ensures r.Success? ==> offset < r.value.start <= r.value.end < |output|
  {
    var headerEnd := IndexOf(output, NEWLINE, offset);
    if headerEnd.None? then Failure(NoHeader(path))
    else
      match parse(output[offset..headerEnd.value])
      case Missing => Failure(MissingPath(path))
      case NoSize => Failure(InvalidSize(path))
      case Announces(size) =>
        var start := headerEnd.value + 1;
        var end := start + size;
        if end >= |output| || output[end] != NEWLINE then Failure(Truncated(path)) else Success(Slice(start, end))
  }

  /**
   How an entry is read: there is no header without a newline, a header that reports a missing
   object or no usable size is an error of its path, and an announced size is accepted exactly
   when a newline stands behind that many bytes.
   */
  lemma EntryIsRead(output: Bytes, offset: nat, header: Bytes, tail: Bytes, path: Path, parse: HeaderParser)
    requires offset <= |output|
    ensures ReadEntry(output, offset, path, parse) == Failure(NoHeader(path)) <==> NEWLINE !in output[offset..]
    ensures output[offset..] == header + [NEWLINE] + tail && NEWLINE !in header ==>
              var r, start := ReadEntry(output, offset, path, parse), offset + |header| + 1;
              && (parse(header) == Missing ==> r == Failure(MissingPath(path)))
              && (parse(header) == NoSize ==> r == Failure(InvalidSize(path)))
              && forall size: nat :: parse(header) == Announces(size) ==>
                   if size < |tail| && tail[size] == NEWLINE then r == Success(Slice(start, start + size))
                   else r == Failure(Truncated(path))
  {
    IndexOfFinds(output, NEWLINE, offset);
    var headerEnd := IndexOf(output, NEWLINE, offset);
    if headerEnd.Some? {
      assert output[offset..][headerEnd.value - offset] == NEWLINE;
    }
    if output[offset..] == header + [NEWLINE] + tail && NEWLINE !in header {
      assert output[offset..offset + |header|] == output[offset..][..|header|] == header;
      assert output[offset + |header|] == output[offset..][|header|] == NEWLINE;
      FirstAt(output, NEWLINE, offset, header);
      forall i | 0 <= i < |tail| ensures output[offset + |header| + 1 + i] == tail[i] {
        assert output[offset..][|header| + 1 + i] == tail[i];
      }
    }
  }

  function ReadEntries(
    output: Bytes, offset: nat, paths: seq<Path>, parse: HeaderParser): Result<seq<Slice>, BatchError>
    decreases |paths|
  {
    if paths == [] then Success([])
    else
      match ReadEntry(output, offset, paths[0], parse)
      case Failure(error) => Failure(error)
      case Success(slice) =>
        Extended([slice], ReadEntries(output, slice.end + 1, paths[1..], parse))
  }

  function Extended(slices: seq<Slice>, later: Result<seq<Slice>, BatchError>): Result<seq<Slice>, BatchError> {
    if later.Success? then Success(slices + later.value) else later
  }

  /** Each path with its content; of a path asked for twice, the later content. */
  function Collected<V>(paths: seq<Path>, contents: seq<V>): map<Path, V>
    requires |paths| == |contents|
  {
    if paths == [] then map[]
    else
      var n := |paths| - 1;
      Collected(paths[..n], contents[..n])[paths[n] := contents[n]]
  }

  ghost predicate InBounds(output: Bytes, slices: seq<Slice>) {
    forall i :: 0 <= i < |slices| ==> slices[i].start <= slices[i].end < |output|
  }

  function Cut(output: Bytes, slices: seq<Slice>): (contents: seq<Bytes>)
    requires InBounds(output, slices)
    ensures |contents| == |slices|
  {
    seq(|slices|, i requires 0 <= i < |slices| => output[slices[i].start..slices[i].end])
  }

  lemma {:induction false} SlicesInBounds(output: Bytes, offset: nat, paths: seq<Path>, parse: HeaderParser)
    requires ReadEntries(output, offset, paths, parse).Success?
    ensures |ReadEntries(output, offset, paths, parse).value| == |paths|
    ensures InBounds(output, ReadEntries(output, offset, paths, parse).value)
    decreases |paths|
  {
    if paths != [] {
      SlicesInBounds(output, ReadEntry(output, offset, paths[0], parse).value.end + 1, paths[1..], parse);
    }
  }

  /** The slices follow one another, each behind its own header line. */
  ghost predicate Chained(slices: seq<Slice>, offset: nat) {
    slices != [] ==> offset < slices[0].start <= slices[0].end && Chained(slices[1..], slices[0].end + 1)
  }

  lemma {:induction false} SlicesChained(output: Bytes, offset: nat, paths: seq<Path>, parse: HeaderParser)
    requires ReadEntries(output, offset, paths, parse).Success?
    ensures Chained(ReadEntries(output, offset, paths, parse).value, offset)
    decreases |paths|
  {
    if paths != [] {
      var slice := ReadEntry(output, offset, paths[0], parse).value;
      SlicesChained(output, slice.end + 1, paths[1..], parse);
      assert ReadEntries(output, offset, paths, parse).value[1..] ==
             ReadEntries(output, slice.end + 1, paths[1..], parse).value;
    }
  }

  lemma {:induction false} ChainedBehind(slices: seq<Slice>, offset: nat, j: nat)
    requires Chained(slices, offset) && j < |slices|
    ensures offset < slices[j].start
  {
    if j > 0 {
      ChainedBehind(slices[1..], slices[0].end + 1, j - 1);
    }
  }

  lemma {:induction false} ChainedApart(slices: seq<Slice>, offset: nat, i: nat, j: nat)
    requires Chained(slices, offset) && i < j < |slices|
    ensures offset < slices[i].start <= slices[i].end < slices[j].start
  {
    if i > 0 {
      ChainedApart(slices[1..], slices[0].end + 1, i - 1, j - 1);
    } else {
      ChainedBehind(slices[1..], slices[0].end + 1, j - 1);
    }
  }

  /** Accepted contents lie inside the output and behind one another: no two share a byte. */
  lemma SlicesApart(output: Bytes, paths: seq<Path>, parse: HeaderParser, i: nat, j: nat)
    requires ReadEntries(output, 0, paths, parse).Success?
    requires i < j < |ReadEntries(output, 0, paths, parse).value|
    ensures var slices := ReadEntries(output, 0, paths, parse).value;
            0 < slices[i].start <= slices[i].end < slices[j].start <= slices[j].end < |output|
  {
    SlicesChained(output, 0, paths, parse);
    SlicesInBounds(output, 0, paths, parse);
    ChainedApart(ReadEntries(output, 0, paths, parse).value, 0, i, j);
  }

  // ---------------------------------------------------------------- what is read

  /** `entry` is printed at `offset`. */
  ghost predicate PrintedAt(output: Bytes, offset: nat, entry: Entry) {
    var start := offset + |entry.header| + 1;
    var end := start + |entry.content|;
    && end < |output|
    && output[offset..start - 1] == entry.header && output[start - 1] == NEWLINE
    && output[start..end] == entry.content && output[end] == NEWLINE
  }

  lemma PrintedLies(before: Bytes, entry: Entry, rest: Bytes)
    ensures PrintedAt(before + (Printed(entry) + rest), |before|, entry)
  {
    var output := before + (Printed(entry) + rest);
    assert output[|before|..] == Printed(entry) + rest;
    var start := |before| + |entry.header| + 1;
    assert output[start..] == entry.content + [NEWLINE] + rest;
  }

  lemma ReadsEntry(output: Bytes, offset: nat, entry: Entry, path: Path, parse: HeaderParser)
    requires WellFormed(entry, parse) && PrintedAt(output, offset, entry)
    ensures var start := offset + |entry.header| + 1;
            ReadEntry(output, offset, path, parse) == Success(Slice(start, start + |entry.content|))
  {
    FirstAt(output, NEWLINE, offset, entry.header);
  }

  lemma Regroup(first: Bytes, second: Bytes, third: Bytes)
    ensures (first + second) + third == first + (second + third)
  {
  }

  lemma FirstPrinted(output: Bytes, before: Bytes, entries: seq<Entry>, rest: Bytes)
    requires entries != [] && output == before + (Stream(entries) + rest)
    ensures PrintedAt(output, |before|, entries[0])
    ensures output == (before + Printed(entries[0])) + (Stream(entries[1..]) + rest)
    ensures |before + Printed(entries[0])| == |before| + |entries[0].header| + |entries[0].content| + 2
  {
    var entry, behind := entries[0], Stream(entries[1..]);
    Regroup(Printed(entry), behind, rest);
    Regroup(before, Printed(entry), behind + rest);
    PrintedLies(before, entry, behind + rest);
  }

  /** The slices read from a stream are those of its contents. */
  ghost predicate ReadsContents(
    output: Bytes, offset: nat, paths: seq<Path>, parse: HeaderParser, entries: seq<Entry>) {
    var r := ReadEntries(output, offset, paths, parse);
    r.Success? && InBounds(output, r.value) && Cut(output, r.value) == ContentsOf(entries)
  }

  lemma ReadsOneMore(
    output: Bytes, offset: nat, slice: Slice, paths: seq<Path>, parse: HeaderParser, entries: seq<Entry>)
    requires paths != [] && entries != [] && ReadEntry(output, offset, paths[0], parse) == Success(slice)
    requires output[slice.start..slice.end] == entries[0].content
    requires ReadsContents(output, slice.end + 1, paths[1..], parse, entries[1..])
    ensures ReadsContents(output, offset, paths, parse, entries)
  {
    CutCons(output, slice, ReadEntries(output, slice.end + 1, paths[1..], parse).value);
    ContentsOfCons(entries[0], entries[1..]);
    assert entries == [entries[0]] + entries[1..];
  }

  /** A printed stream reads back, wherever it lies in the output and whatever follows it. */
  lemma {:induction false} ReadsStream(output: Bytes, before: Bytes, entries: seq<Entry>, rest: Bytes,
                                       paths: seq<Path>, parse: HeaderParser)
    requires AllWellFormed(entries, parse) && |entries| == |paths|
    requires output == before + (Stream(entries) + rest)
    ensures ReadsContents(output, |before|, paths, parse, entries)
    decreases |paths|
  {
    if entries != [] {
      var entry := entries[0];
      FirstPrinted(output, before, entries, rest);
      var start := |before| + |entry.header| + 1;
      var slice := Slice(start, start + |entry.content|);
      ReadsStream(output, before + Printed(entry), entries[1..], rest, paths[1..], parse);
      ReadsEntry(output, |before|, entry, paths[0], parse);
      ReadsOneMore(output, |before|, slice, paths, parse, entries);
    }
  }

  lemma CutCons(output: Bytes, slice: Slice, slices: seq<Slice>)
    requires slice.start <= slice.end < |output| && InBounds(output, slices)
    ensures InBounds(output, [slice] + slices)
    ensures Cut(output, [slice] + slices) == [output[slice.start..slice.end]] + Cut(output, slices)
  {
  }

  lemma ContentsOfCons(entry: Entry, entries: seq<Entry>)
    ensures ContentsOf([entry] + entries) == [entry.content] + ContentsOf(entries)
  {
  }

  /** What an accepted entry looked like. */
  lemma EntryRead(output: Bytes, offset: nat, path: Path, parse: HeaderParser) returns (entry: Entry)
    requires offset <= |output| && ReadEntry(output, offset, path, parse).Success?
    ensures WellFormed(entry, parse)
    ensures var slice := ReadEntry(output, offset, path, parse).value;
            output[offset..] == Printed(entry) + output[slice.end + 1..]
  {
    var slice := ReadEntry(output, offset, path, parse).value;
    IndexOfFinds(output, NEWLINE, offset);
    entry := Entry(output[offset..slice.start - 1], output[slice.start..slice.end]);
    assert output[slice.start - 1] == NEWLINE && output[slice.end] == NEWLINE;
    SplitAround(output, offset, slice.start - 1, slice.end);
  }

  lemma SplitAround(output: Bytes, from: nat, i: nat, j: nat)
    requires from <= i < j < |output|
    ensures output[from..] == output[from..i] + [output[i]] + output[i + 1..j] + [output[j]] + output[j + 1..]
  {
  }

  /** Whatever output is accepted began with the printed stream of well-formed entries. */
  lemma {:induction false} StreamRead(output: Bytes, offset: nat, paths: seq<Path>, parse: HeaderParser)
    returns (entries: seq<Entry>, rest: Bytes)
    requires offset <= |output| && ReadEntries(output, offset, paths, parse).Success?
    ensures AllWellFormed(entries, parse) && |entries| == |paths| && output[offset..] == Stream(entries) + rest
    decreases |paths|
  {
    if paths == [] {
      entries, rest := [], output[offset..];
    } else {
      var entry := EntryRead(output, offset, paths[0], parse);
      var slice := ReadEntry(output, offset, paths[0], parse).value;
      var behind;
      behind, rest := StreamRead(output, slice.end + 1, paths[1..], parse);
      entries := [entry] + behind;
      assert entries[1..] == behind;
      Regroup(Printed(entry), Stream(behind), rest);
    }
  }

  /** `output` begins with one well-formed entry per path, and `entries` are those. */
  ghost predicate Answers(output: Bytes, paths: seq<Path>, entries: seq<Entry>, rest: Bytes, parse: HeaderParser) {
    && AllWellFormed(entries, parse) && |entries| == |paths|
    && output == Stream(entries) + rest
  }

  /**
   The reader accepts an output exactly when it begins with one well-formed entry per path,
   and then gives each path its content byte for byte, with newlines and all.
   */
  lemma AcceptedIffPrinted(output: Bytes, paths: seq<Path>, parse: HeaderParser)
    ensures ReadEntries(output, 0, paths, parse).Success? <==>
            exists entries, rest :: Answers(output, paths, entries, rest, parse)
    ensures forall entries, rest :: Answers(output, paths, entries, rest, parse) ==>
              && InBounds(output, ReadEntries(output, 0, paths, parse).value)
              && Cut(output, ReadEntries(output, 0, paths, parse).value) == ContentsOf(entries)
  {
    if ReadEntries(output, 0, paths, parse).Success? {
      var entries, rest := StreamRead(output, 0, paths, parse);
      assert output[0..] == output;
      assert Answers(output, paths, entries, rest, parse);
    }
    forall entries, rest | Answers(output, paths, entries, rest, parse)
      ensures ReadEntries(output, 0, paths, parse).Success?
      ensures InBounds(output, ReadEntries(output, 0, paths, parse).value)
      ensures Cut(output, ReadEntries(output, 0, paths, parse).value) == ContentsOf(entries)
    {
      assert [] + (Stream(entries) + rest) == output;
      ReadsStream(output, [], entries, rest, paths, parse);
    }
  }

  // ---------------------------------------------------------------- the loop

  /** The offset behind the last slice. */
  function Behind(offset: nat, slices: seq<Slice>): nat {
    if slices == [] then offset else slices[|slices| - 1].end + 1
  }

  lemma ExtendedTwice(slice: Slice, slices: seq<Slice>, later: Result<seq<Slice>, BatchError>)
    ensures Extended([slice], Extended(slices, later)) == Extended([slice] + slices, later)
  {
    if later.Success? {
      assert [slice] + (slices + later.value) == [slice] + slices + later.value;
    }
  }

  /** What is read begins with the slice of the first entry. */
  lemma FirstRead(output: Bytes, offset: nat, paths: seq<Path>, slices: seq<Slice>, parse: HeaderParser)
    returns (slice: Slice, behind: seq<Slice>)
    requires paths != [] && ReadEntries(output, offset, paths, parse) == Success(slices)
    ensures ReadEntry(output, offset, paths[0], parse) == Success(slice)
    ensures ReadEntries(output, slice.end + 1, paths[1..], parse) == Success(behind)
    ensures slices == [slice] + behind && Behind(offset, slices) == Behind(slice.end + 1, behind)
  {
    slice := ReadEntry(output, offset, paths[0], parse).value;
    behind := ReadEntries(output, slice.end + 1, paths[1..], parse).value;
  }

  lemma {:induction false} ReadEntriesSnoc(output: Bytes, offset: nat, paths: seq<Path>, slices: seq<Slice>,
                                           todo: seq<Path>, parse: HeaderParser)
    requires ReadEntries(output, offset, paths, parse) == Success(slices)
    ensures ReadEntries(output, offset, paths + todo, parse) ==
            Extended(slices, ReadEntries(output, Behind(offset, slices), todo, parse))
    decreases |paths|
  {
    if paths == [] {
      assert paths + todo == todo;
      var later := ReadEntries(output, offset, todo, parse);
      assert later.Success? ==> [] + later.value == later.value;
    } else {
      var slice, behind := FirstRead(output, offset, paths, slices, parse);
      assert (paths + todo)[0] == paths[0] && (paths + todo)[1..] == paths[1..] + todo;
      ReadEntriesSnoc(output, slice.end + 1, paths[1..], behind, todo, parse);
      ExtendedTwice(slice, behind, ReadEntries(output, Behind(offset, slices), todo, parse));
    }
  }

  lemma ReadOne(output: Bytes, offset: nat, path: Path, parse: HeaderParser)
    ensures var r := ReadEntry(output, offset, path, parse);
            ReadEntries(output, offset, [path], parse) == if r.Success? then Success([r.value]) else Failure(r.error)
  {
    assert [path][1..] == [];
    var r := ReadEntry(output, offset, path, parse);
    if r.Success? {
      assert ReadEntries(output, r.value.end + 1, [], parse) == Success([]);
      assert [r.value] + [] == [r.value];
    }
  }

  /** One round of the loop: the entry of one path. */
  method ReadNext(output: Bytes, offset: nat, path: Path, parse: HeaderParser) returns (r: Result<Slice, BatchError>)
    ensures r == ReadEntry(output, offset, path, parse)
  {
    var headerEnd := IndexOf(output, NEWLINE, offset);
    if headerEnd.None? {
      return Failure(NoHeader(path));
    }
    match parse(output[offset..headerEnd.value])
    case Missing =>
      return Failure(MissingPath(path));
    case NoSize =>
      return Failure(InvalidSize(path));
    case Announces(size) =>
      var contentStart := headerEnd.value + 1;
      var contentEnd := contentStart + size;
      if contentEnd >= |output| || output[contentEnd] != NEWLINE {
        return Failure(Truncated(path));
      }
      return Success(Slice(contentStart, contentEnd));
  }

  lemma CollectedSnoc<V>(paths: seq<Path>, contents: seq<V>, path: Path, content: V)
    requires |paths| == |contents|
    ensures Collected(paths + [path], contents + [content]) == Collected(paths, contents)[path := content]
  {
    assert (paths + [path])[..|paths|] == paths && (contents + [content])[..|paths|] == contents;
  }

  lemma CutSnoc(output: Bytes, slices: seq<Slice>, slice: Slice)
    requires InBounds(output, slices) && slice.start <= slice.end < |output|
    ensures InBounds(output, slices + [slice])
    ensures Cut(output, slices + [slice]) == Cut(output, slices) + [output[slice.start..slice.end]]
  {
  }

  /** What the contents are as texts. */
  function Texts(contents: seq<Bytes>, decode: Decoder): seq<string> {
    seq(|contents|, i requires 0 <= i < |contents| => decode(contents[i]))
  }

  lemma TextsSnoc(contents: seq<Bytes>, content: Bytes, decode: Decoder)
    ensures Texts(contents + [content], decode) == Texts(contents, decode) + [decode(content)]
  {
  }

  /** `r` is the error of the first entry that fails, or the texts of all entries by path. */
  ghost predicate Reads(output: Bytes, paths: seq<Path>, parse: HeaderParser, decode: Decoder,
                        r: Result<map<Path, string>, BatchError>) {
    var read := ReadEntries(output, 0, paths, parse);
    if read.Failure? then r == Failure(read.error)
    else
      && |read.value| == |paths| && InBounds(output, read.value)
      && r == Success(Collected(paths, Texts(Cut(output, read.value), decode)))
  }

  /** The entries of `done` have been read, and end before `offset`. */
  ghost predicate ReadSoFar(output: Bytes, done: seq<Path>, parse: HeaderParser, decode: Decoder,
                            slices: seq<Slice>, offset: nat, contents: map<Path, string>) {
    && |slices| == |done| && InBounds(output, slices)
    && ReadEntries(output, 0, done, parse) == Success(slices)
    && offset == Behind(0, slices)
    && contents == Collected(done, Texts(Cut(output, slices), decode))
  }

  lemma ReadMore(output: Bytes, done: seq<Path>, parse: HeaderParser, decode: Decoder,
                 slices: seq<Slice>, offset: nat, contents: map<Path, string>, path: Path, slice: Slice)
    requires ReadSoFar(output, done, parse, decode, slices, offset, contents)
    requires ReadEntry(output, offset, path, parse) == Success(slice)
    ensures ReadSoFar(output, done + [path], parse, decode, slices + [slice], slice.end + 1,
                      contents[path := decode(output[slice.start..slice.end])])
  {
    var content := output[slice.start..slice.end];
    ReadOne(output, offset, path, parse);
    ReadEntriesSnoc(output, 0, done, slices, [path], parse);
    CutSnoc(output, slices, slice);
    TextsSnoc(Cut(output, slices), content, decode);
    CollectedSnoc(done, Texts(Cut(output, slices), decode), path, decode(content));
  }

  /** The loop over the requested paths. */
  method ReadFiles(output: Bytes, paths: seq<Path>, parse: HeaderParser, decode: Decoder)
    returns (r: Result<map<Path, string>, BatchError>)
    ensures Reads(output, paths, parse, decode, r)
  {
    var contents: map<Path, string> := map[];
    ghost var slices: seq<Slice> := [];
    ghost var done: seq<Path> := [];
    var offset: nat, n: nat := 0, 0;
    while n < |paths|
      invariant n <= |paths| && done == paths[..n]
      invariant ReadSoFar(output, done, parse, decode, slices, offset, contents)
    {
      var path := paths[n];
      var entry := ReadNext(output, offset, path, parse);
      if entry.Failure? {
        FailsAfter(output, done, slices, paths[n..], parse);
        assert done + paths[n..] == paths;
        return Failure(entry.error);
      }
      var slice := entry.value;
      ReadMore(output, done, parse, decode, slices, offset, contents, path, slice);
      contents := contents[path := decode(output[slice.start..slice.end])];
      slices, done := slices + [slice], done + [path];
      offset := slice.end + 1;
      n := n + 1;
    }
    assert done == paths;
    return Success(contents);
  }

  /** Read the contents of `paths` from the batch output. */
  method ReadGitFiles(output: Bytes, paths: seq<Path>, decode: Decoder)
    returns (r: Result<map<Path, string>, BatchError>)
    ensures Reads(output, paths, ParseHeader, decode, r)
  {
    r := ReadFiles(output, paths, ParseHeader, decode);
  }

  lemma FailsAfter(output: Bytes, done: seq<Path>, slices: seq<Slice>, todo: seq<Path>, parse: HeaderParser)
    requires ReadEntries(output, 0, done, parse) == Success(slices) && todo != []
    requires ReadEntry(output, Behind(0, slices), todo[0], parse).Failure?
    ensures ReadEntries(output, 0, done + todo, parse) ==
            Failure(ReadEntry(output, Behind(0, slices), todo[0], parse).error)
  {
    ReadEntriesSnoc(output, 0, done, slices, todo, parse);
  }

  // ---------------------------------------------------------------- git's own output

  datatype GitObject = GitObject(oid: Bytes, kind: Bytes, content: Bytes)

  ghost predicate Printable(printed: GitObject) {
    && SPACE !in printed.oid && SPACE !in printed.kind && NEWLINE !in printed.oid && NEWLINE !in printed.kind
    && |printed.content| <= MAX_SAFE_INTEGER
  }

  function EntriesOf(objects: seq<GitObject>): (entries: seq<Entry>)
    ensures |entries| == |objects|
  {
    seq(|objects|, i requires 0 <= i < |objects| =>
      Entry(GitHeader(objects[i].oid, objects[i].kind, |objects[i].content|), objects[i].content))
  }

  /**
   The round trip: from what git prints for some objects, one per path, the reader takes
   exactly their contents, even when these hold newlines or look like headers themselves.
   */
  lemma ReadsWhatGitPrints(objects: seq<GitObject>, paths: seq<Path>, rest: Bytes)
    requires |objects| == |paths| && forall i :: 0 <= i < |objects| ==> Printable(objects[i])
    ensures ReadsContents(Stream(EntriesOf(objects)) + rest, 0, paths, ParseHeader, EntriesOf(objects))
  {
    var entries := EntriesOf(objects);
    forall i | 0 <= i < |entries| ensures WellFormed(entries[i], ParseHeader) {
      assert Printable(objects[i]);
      GitHeaderAnnounces(objects[i].oid, objects[i].kind, |objects[i].content|);
      NoNewlineInHeader(objects[i].oid, objects[i].kind, |objects[i].content|);
    }
    var output := Stream(entries) + rest;
    assert output == [] + (Stream(entries) + rest);
    ReadsStream(output, [], entries, rest, paths, ParseHeader);
  }

  /** The path is not asked for again behind `k`. */
  predicate LastAsked(paths: seq<Path>, k: nat) {
    k < |paths| && paths[k] !in paths[k + 1..]
  }

  lemma {:induction false} CollectedPaths<V>(paths: seq<Path>, contents: seq<V>)
    requires |paths| == |contents|
    ensures forall path :: path in Collected(paths, contents) <==> path in paths
  {
    if paths != [] {
      var n := |paths| - 1;
      CollectedPaths(paths[..n], contents[..n]);
      assert paths == paths[..n] + [paths[n]];
    }
  }

  lemma {:induction false} CollectedAt<V>(paths: seq<Path>, contents: seq<V>, k: nat)
    requires |paths| == |contents| && LastAsked(paths, k)
    ensures paths[k] in Collected(paths, contents) && Collected(paths, contents)[paths[k]] == contents[k]
  {
    var n := |paths| - 1;
    if k < n {
      assert paths[k + 1..] == paths[..n][k + 1..] + [paths[n]];
      CollectedAt(paths[..n], contents[..n], k);
    }
  }

  /**
   From what git prints for some paths, the reader takes the text of each content under its path,
   and nothing else; a path that was asked for twice has the later content.
   */
  lemma TextsOfWhatGitPrints(objects: seq<GitObject>, paths: seq<Path>, rest: Bytes, decode: Decoder,
                             r: Result<map<Path, string>, BatchError>)
    requires |objects| == |paths|
    requires forall i :: 0 <= i < |objects| ==> Printable(objects[i])
    requires Reads(Stream(EntriesOf(objects)) + rest, paths, ParseHeader, decode, r)
    ensures r.Success? && forall path :: path in r.value <==> path in paths
    ensures forall k: nat :: LastAsked(paths, k) ==> r.value[paths[k]] == decode(objects[k].content)
  {
    ReadsWhatGitPrints(objects, paths, rest);
    var texts := Texts(ContentsOf(EntriesOf(objects)), decode);
    assert r == Success(Collected(paths, texts));
    CollectedPaths(paths, texts);
    forall k: nat | LastAsked(paths, k) ensures r.value[paths[k]] == decode(objects[k].content) {
      CollectedAt(paths, texts, k);
      TextAt(objects, decode, k);
    }
  }

  lemma TextAt(objects: seq<GitObject>, decode: Decoder, k: nat)
    requires k < |objects|
    ensures Texts(ContentsOf(EntriesOf(objects)), decode)[k] == decode(objects[k].content)
  {
  }

  lemma NoNewlineInHeader(oid: Bytes, kind: Bytes, size: nat)
    requires NEWLINE !in oid && NEWLINE !in kind
    ensures NEWLINE !in GitHeader(oid, kind, size)
  {
    var ds := Decimal(size);
    assert forall b :: b in ds ==> IsDigit(b);
  }
}
