/** The persisted analysis record (`NoteAnalysis`): its closed status
    vocabulary, the defaults a new row starts from, and its one-line
    rendering. */
module Notes {
  import opened Wrappers
  import opened Json

  /** The width of the status column. */
  const MaxStatusLength: nat := 20

  /** The four legal values of the status column. */
  datatype Status = Pending | Processing | Completed | Failed
  {
    /** The value stored in the status column. */
    function Text(): (t: string)
      ensures 0 < |t| <= MaxStatusLength
      ensures forall c :: c in t ==> 'a' <= c <= 'z'
    {
      match this
      case Pending => "pending"
      case Processing => "processing"
      case Completed => "completed"
      case Failed => "failed"
    }

    /** The human-readable label paired with the stored value in the
        column's choices. */
    function Label(): (l: string)
      ensures |l| == |Text()| && l[1..] == Text()[1..]
      ensures 'A' <= l[0] <= 'Z' && l[0] as int == Text()[0] as int - 32
    {
      match this
      case Pending => "Pending"
      case Processing => "Processing"
      case Completed => "Completed"
      case Failed => "Failed"
    }
  }

  /** Reads a status back from its stored text; anything outside the four
      values is not a status. */
  function StatusFromText(t: string): (r: Option<Status>)
    ensures r.Some? ==> r.value.Text() == t
    ensures r.None? ==> forall s: Status :: s.Text() != t
  {
    if t == "pending" then Some(Pending)
    else if t == "processing" then Some(Processing)
    else if t == "completed" then Some(Completed)
    else if t == "failed" then Some(Failed)
    else None
  }

  /** Every status survives being stored as text and read back, so distinct
      statuses are stored as distinct texts. */
  lemma StatusTextRoundTrip(s: Status, s': Status)
    ensures StatusFromText(s.Text()) == Some(s)
    ensures s.Text() == s'.Text() ==> s == s'
  {
    assert StatusFromText(s'.Text()) == Some(s');
  }

  /** The column's choice list: one (stored value, label) pair per status. */
  function StatusChoices(): (r: seq<(string, string)>)
    ensures |r| == 4
    ensures forall s: Status :: (s.Text(), s.Label()) in r
    ensures forall i :: 0 <= i < |r| ==> StatusFromText(r[i].0).Some?
  {
    [ (Pending.Text(), Pending.Label()),
      (Processing.Text(), Processing.Label()),
      (Completed.Text(), Completed.Label()),
      (Failed.Text(), Failed.Label()) ]
  }

  /** One analysis request and its outcome. The four output fields hold
      whatever the decoded model output held under the corresponding key
      (the task copies them without checking their types); `JNull` is the
      database null of a field not yet written. */
  datatype NoteAnalysis = NoteAnalysis(
    id: nat,
    rawText: string,
    file: Option<string>,
    summary: JsonValue,
    keyPoints: JsonValue,
    missingInfo: JsonValue,
    nextActions: JsonValue,
    status: Status,
    error: string,
    createdAt: int)

  /** The fields the analysis task never writes. */
  predicate SameIdentity(a: NoteAnalysis, b: NoteAnalysis) {
    a.id == b.id && a.rawText == b.rawText && a.file == b.file && a.createdAt == b.createdAt
  }

  /** The four fields the analysis fills in, as one value. */
  function Outputs(r: NoteAnalysis): (JsonValue, JsonValue, JsonValue, JsonValue) {
    (r.summary, r.keyPoints, r.missingInfo, r.nextActions)
  }

  /** A record no analysis has touched: pending, empty summary and error
      text, and the three list fields null rather than empty lists. */
  predicate Untouched(r: NoteAnalysis) {
    && r.status == Pending
    && r.summary == JString("")
    && r.error == ""
    && r.keyPoints == JNull && r.missingInfo == JNull && r.nextActions == JNull
  }

  /** A row as the upload handler creates it: only the identity fields are
      supplied, every other column takes its declared default. */
  function NewNoteAnalysis(id: nat, rawText: string, file: Option<string>, createdAt: int): (r: NoteAnalysis)
    ensures Untouched(r)
    ensures r.id == id && r.rawText == rawText && r.file == file && r.createdAt == createdAt
  {
    NoteAnalysis(id, rawText, file, JString(""), JNull, JNull, JNull, Pending, "", createdAt)
  }

  // ---------------------------------------------------------------------
  // Decimal rendering of the id, as Python's f-string formats an int.

  predicate IsDigit(c: char) {
    '0' <= c <= '9'
  }

  predicate AllDigits(s: string) {
    forall i :: 0 <= i < |s| ==> IsDigit(s[i])
  }

  function DigitChar(d: nat): (c: char)
    requires d < 10
    ensures IsDigit(c) && (c as int) - ('0' as int) == d
  {
    (('0' as int) + d) as char
  }

  /** The value of a string of decimal digits. */
  function ParseDecimal(s: string): nat
    requires AllDigits(s)
  {
    if s == [] then 0
    else 10 * ParseDecimal(s[..|s| - 1]) + ((s[|s| - 1] as int) - ('0' as int))
  }

  /** The shortest decimal numeral of `n`: non-empty, digits only, no
      leading zero, and it reads back as `n`. */
  function Decimal(n: nat): (s: string)
    ensures |s| > 0 && AllDigits(s)
    ensures s[0] == '0' ==> n == 0 && s == "0"
    ensures ParseDecimal(s) == n
    decreases n
  {
    if n < 10 then [DigitChar(n)]
    else
      var prefix := Decimal(n / 10);
      var s := prefix + [DigitChar(n % 10)];
      assert s[..|s| - 1] == prefix;
      s
  }

  // ---------------------------------------------------------------------
  // The `__str__` rendering and the reading that inverts it.

  const DescriptionPrefix: string := "NoteAnalysis #"
  const DescriptionSeparator: string := " - "

  /** How many characters at the front of `s` are decimal digits. */
  function LeadingDigits(s: string): (n: nat)
    ensures n <= |s| && AllDigits(s[..n])
    ensures n < |s| ==> !IsDigit(s[n])
  {
    if s == [] || !IsDigit(s[0]) then 0
    else
      var n := 1 + LeadingDigits(s[1..]);
      assert s[..n] == [s[0]] + s[1..][..n - 1];
      n
  }

  lemma {:induction false} LeadingDigitsOfNumeral(d: string, t: string)
    requires AllDigits(d)
    requires t != [] && !IsDigit(t[0])
    ensures LeadingDigits(d + t) == |d|
    decreases |d|
  {
    if d == [] {
      assert d + t == t;
    } else {
      assert (d + t)[1..] == d[1..] + t;
      LeadingDigitsOfNumeral(d[1..], t);
    }
  }

  /** `s` without the prefix `p`, when it starts with `p`. */
  function DropPrefix(s: string, p: string): (r: Option<string>)
    ensures r.Some? ==> s == p + r.value
    ensures r.None? ==> forall t :: s != p + t
  {
    if |p| <= |s| && s[..|p|] == p then
      assert s == s[..|p|] + s[|p|..];
      Some(s[|p|..])
    else
      assert forall t :: (p + t)[..|p|] == p;
      None
  }

  /** Reads the id and status back out of a rendering; `None` for any text
      that is not shaped like one. */
  function ParseDescription(s: string): (r: Option<(nat, Status)>)
  {
    match DropPrefix(s, DescriptionPrefix)
    case None => None
    case Some(rest) => ParseIdAndStatus(rest)
  }

  /** Reads "<digits> - <status>", what follows the fixed prefix. */
  function ParseIdAndStatus(rest: string): (r: Option<(nat, Status)>)
  {
    var n := LeadingDigits(rest);
    if n == 0 then None
    else
      match DropPrefix(rest[n..], DescriptionSeparator)
      case None => None
      case Some(text) =>
        match StatusFromText(text)
        case None => None
        case Some(st) => Some((ParseDecimal(rest[..n]), st))
  }

  lemma DropPrefixOf(p: string, t: string)
    ensures DropPrefix(p + t, p) == Some(t)
  {
    assert (p + t)[..|p|] == p;
    assert (p + t)[|p|..] == t;
  }

  lemma ParseIdAndStatusOf(digits: string, text: string, st: Status)
    requires |digits| > 0 && AllDigits(digits)
    requires StatusFromText(text) == Some(st)
    ensures ParseIdAndStatus(digits + (DescriptionSeparator + text)) == Some((ParseDecimal(digits), st))
  {
    var tailSep := DescriptionSeparator + text;
    var rest := digits + tailSep;
    LeadingDigitsOfNumeral(digits, tailSep);
    assert rest[..|digits|] == digits;
    assert rest[|digits|..] == tailSep;
    DropPrefixOf(DescriptionSeparator, text);
  }

  lemma ConcatAssociates(a: string, b: string, c: string, d: string)
    ensures a + b + c + d == a + (b + (c + d))
  {
  }

  /** Reading a well-formed rendering back yields its numeral's value and
      its status. */
  lemma ParseWellFormedDescription(digits: string, text: string, st: Status)
    requires |digits| > 0 && AllDigits(digits)
    requires StatusFromText(text) == Some(st)
    ensures ParseDescription(DescriptionPrefix + digits + DescriptionSeparator + text)
         == Some((ParseDecimal(digits), st))
  {
    var rest := digits + (DescriptionSeparator + text);
    ConcatAssociates(DescriptionPrefix, digits, DescriptionSeparator, text);
    DropPrefixOf(DescriptionPrefix, rest);
    ParseIdAndStatusOf(digits, text, st);
  }

  /** The admin and shell rendering of a record: "NoteAnalysis #<id> -
      <status>". It names the record unambiguously: its id and status can be
      read back from it. */
  function Describe(r: NoteAnalysis): (s: string)
    ensures s == DescriptionPrefix + Decimal(r.id) + DescriptionSeparator + r.status.Text()
    ensures ParseDescription(s) == Some((r.id, r.status))
  {
    var s := DescriptionPrefix + Decimal(r.id) + DescriptionSeparator + r.status.Text();
    StatusTextRoundTrip(r.status, r.status);
    ParseWellFormedDescription(Decimal(r.id), r.status.Text(), r.status);
    s
  }
}
