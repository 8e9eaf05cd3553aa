/** The per-user condition record and `check_conditions`, the evaluator that
    scores a candidate string against it (server/api.py). */
module Conditions {
  import opened Wrappers
  import opened PyStr

  /** The request body of `/submit-form` (pydantic's `ConditionalModel`):
      every field is required there. */
  datatype ConditionalModel = ConditionalModel(contains: string, min: int, max: int, userId: string)

  /** The dictionary the evaluator reads. A key that is missing from the
      dictionary is `None` here and its predicate is skipped. */
  datatype ConditionRecord = ConditionRecord(
    min: Option<int>,
    max: Option<int>,
    contains: Option<string>,
    userId: Option<string>)

  /** `form_results.dict()`: all four keys present. */
  function ToRecord(form: ConditionalModel): (rec: ConditionRecord)
    ensures rec.min.Some? && rec.max.Some? && rec.contains.Some? && rec.userId.Some?
  {
    ConditionRecord(Some(form.min), Some(form.max), Some(form.contains), Some(form.userId))
  }

  /** Reading a stored dictionary back as a `ConditionalModel`; fails when a
      key is missing. */
  function FromRecord(rec: ConditionRecord): (form: Option<ConditionalModel>)
    ensures form.Some? <==> rec.min.Some? && rec.max.Some? && rec.contains.Some? && rec.userId.Some?
  {
    match (rec.min, rec.max, rec.contains, rec.userId)
    case (Some(lo), Some(hi), Some(c), Some(u)) => Some(ConditionalModel(c, lo, hi, u))
    case _ => None
  }

  /** Storing a form and reading it back loses nothing. */
  lemma FormRoundTrip(form: ConditionalModel)
    ensures FromRecord(ToRecord(form)) == Some(form)
  {
  }

  // ---------------------------------------------------------------------------
  // Verdicts
  // ---------------------------------------------------------------------------

  const ValidVerdict: string := "valid"

  const MinPrefix: string := "Does not meet min length of "
  const MaxPrefix: string := "Exceeds max length of "
  const LengthInfix: string := " characters. Current length: "
  const ContainsPrefix: string := "Does not contain "

  /** The shared tail of both length messages, "{bound} characters.
      Current length: {length}". */
  function LengthReport(bound: int, length: nat): string {
    IntToString(bound) + LengthInfix + IntToString(length)
  }

  function MinMessage(min: int, length: nat): (msg: string)
    ensures MinPrefix <= msg
  {
    MinPrefix + LengthReport(min, length)
  }

  function MaxMessage(max: int, length: nat): (msg: string)
    ensures MaxPrefix <= msg
  {
    MaxPrefix + LengthReport(max, length)
  }

  function ContainsMessage(contains: string): (msg: string)
    ensures ContainsPrefix <= msg
  {
    ContainsPrefix + contains
  }

  /** The three kinds of failure message are told apart by their first
      words, and none of them is the success marker. */
  lemma MessagesDistinct(lo: int, hi: int, n: nat, m: nat, c: string)
    ensures MinMessage(lo, n) != ValidVerdict && MaxMessage(hi, m) != ValidVerdict && ContainsMessage(c) != ValidVerdict
    ensures MinMessage(lo, n) != MaxMessage(hi, m)
    ensures MinMessage(lo, n) != ContainsMessage(c)
    ensures MaxMessage(hi, m) != ContainsMessage(c)
  {
    assert MinMessage(lo, n)[0] == 'D' && MinMessage(lo, n)[9] == 'm';
    assert MaxMessage(hi, m)[0] == 'E';
    assert ContainsMessage(c)[0] == 'D' && ContainsMessage(c)[9] == 'c';
  }

  /** The min message reports the bound and the length exactly: two equal
      min messages carry the same numbers. */
  lemma MinMessageInjective(lo: int, n: nat, lo': int, n': nat)
    requires MinMessage(lo, n) == MinMessage(lo', n')
    ensures lo == lo' && n == n'
  {
    DropPrefix(MinPrefix, LengthReport(lo, n), LengthReport(lo', n'));
    LengthReportInjective(lo, n, lo', n');
  }

  /** The max message reports the bound and the length exactly. */
  lemma MaxMessageInjective(hi: int, n: nat, hi': int, n': nat)
    requires MaxMessage(hi, n) == MaxMessage(hi', n')
    ensures hi == hi' && n == n'
  {
    DropPrefix(MaxPrefix, LengthReport(hi, n), LengthReport(hi', n'));
    LengthReportInjective(hi, n, hi', n');
  }

  lemma DropPrefix(p: string, x: string, y: string)
    requires p + x == p + y
    ensures x == y
  {
    assert x == (p + x)[|p|..];
    assert y == (p + y)[|p|..];
  }

  lemma LengthReportInjective(bound: int, n: nat, bound': int, n': nat)
    requires LengthReport(bound, n) == LengthReport(bound', n')
    ensures bound == bound' && n == n'
  {
    NumberThenInfix(IntToString(bound), IntToString(n), IntToString(bound'), IntToString(n'));
    IntToStringInjective(bound, bound');
    IntToStringInjective(n, n');
  }

  /** A number's text never contains a space, so the infix that follows it
      (which starts with one) marks where it ends. */
  lemma NumberThenInfix(a: string, b: string, a': string, b': string)
    requires a + LengthInfix + b == a' + LengthInfix + b'
    requires forall i :: 0 <= i < |a| ==> a[i] != ' '
    requires forall i :: 0 <= i < |a'| ==> a'[i] != ' '
    ensures a == a' && b == b'
  {
    var s := a + LengthInfix + b;
    if |a| < |a'| {
      SpaceAt(a, b, a', b');
      assert false;
    } else if |a'| < |a| {
      SpaceAt(a', b', a, b);
      assert false;
    }
    assert a == s[..|a|] == a';
    assert b == s[|a| + |LengthInfix|..] == b';
  }

  /** Where the shorter number ends, the longer one still has a character,
      and that character is the infix's leading space. */
  lemma SpaceAt(a: string, b: string, a': string, b': string)
    requires |a| < |a'|
    ensures (a + LengthInfix + b)[|a|] == ' '
    ensures (a' + LengthInfix + b')[|a|] == a'[|a|]
  {
  }

  // ---------------------------------------------------------------------------
  // The evaluator
  // ---------------------------------------------------------------------------

  /** Every predicate present in the record holds of the candidate. */
  ghost predicate Satisfies(testStr: string, conditions: ConditionRecord) {
    (conditions.min.Some? ==> conditions.min.value <= |testStr|) &&
    (conditions.max.Some? ==> |testStr| <= conditions.max.value) &&
    (conditions.contains.Some? ==> IsSubstring(Lower(conditions.contains.value), Lower(testStr)))
  }

  /** `check_conditions`: the minimum length, then the maximum length, then
      case-insensitive containment; the first failing check decides the
      message, and "valid" means that every present predicate holds. */
  function CheckConditions(testStr: string, conditions: ConditionRecord): (verdict: string)
    ensures verdict == ValidVerdict <==> Satisfies(testStr, conditions)
  {
    var length := |testStr|;
    if conditions.min.Some? && length < conditions.min.value then
      MessagesDistinct(conditions.min.value, 0, length, 0, "");
      MinMessage(conditions.min.value, length)
    else if conditions.max.Some? && length > conditions.max.value then
      MessagesDistinct(0, conditions.max.value, 0, length, "");
      MaxMessage(conditions.max.value, length)
    else if conditions.contains.Some? && !In(Lower(conditions.contains.value), Lower(testStr)) then
      MessagesDistinct(0, 0, 0, 0, conditions.contains.value);
      ContainsMessage(conditions.contains.value)
    else
      ValidVerdict
  }

  /** A record with no predicates accepts everything. */
  lemma EmptyRecordAlwaysValid(testStr: string, userId: Option<string>)
    ensures CheckConditions(testStr, ConditionRecord(None, None, None, userId)) == ValidVerdict
  {
  }

  /** The minimum length is checked first: a too-short candidate gets the
      min message whatever the other predicates say. */
  lemma MinCheckedFirst(testStr: string, conditions: ConditionRecord)
    requires conditions.min.Some? && |testStr| < conditions.min.value
    ensures CheckConditions(testStr, conditions) == MinMessage(conditions.min.value, |testStr|)
  {
  }

  /** The maximum length is checked second. */
  lemma MaxCheckedSecond(testStr: string, conditions: ConditionRecord)
    requires conditions.min.Some? ==> conditions.min.value <= |testStr|
    requires conditions.max.Some? && |testStr| > conditions.max.value
    ensures CheckConditions(testStr, conditions) == MaxMessage(conditions.max.value, |testStr|)
  {
  }

  /** Containment is checked last; the message keeps the record's casing. */
  lemma ContainsCheckedLast(testStr: string, conditions: ConditionRecord)
    requires conditions.min.Some? ==> conditions.min.value <= |testStr|
    requires conditions.max.Some? ==> |testStr| <= conditions.max.value
    requires conditions.contains.Some?
    requires !IsSubstring(Lower(conditions.contains.value), Lower(testStr))
    ensures CheckConditions(testStr, conditions) == ContainsMessage(conditions.contains.value)
  {
  }

  /** Bounds that cannot both hold reject every candidate. */
  lemma CrossedBoundsNeverValid(testStr: string, conditions: ConditionRecord)
    requires conditions.min.Some? && conditions.max.Some?
    requires conditions.min.value > conditions.max.value
    ensures CheckConditions(testStr, conditions) != ValidVerdict
  {
  }

  /** The candidate's casing never changes the verdict. */
  lemma CandidateCaseIgnored(testStr: string, conditions: ConditionRecord)
    ensures CheckConditions(Lower(testStr), conditions) == CheckConditions(testStr, conditions)
  {
    LowerIdempotent(testStr);
  }

  /** The casing of the required substring does not decide acceptance (it
      only shows in the failure message). */
  lemma ContainsCaseIgnored(testStr: string, conditions: ConditionRecord, contains: string)
    requires conditions.contains == Some(contains)
    ensures var lowered := conditions.(contains := Some(Lower(contains)));
            (CheckConditions(testStr, lowered) == ValidVerdict) == (CheckConditions(testStr, conditions) == ValidVerdict)
  {
    LowerIdempotent(contains);
  }

  /** The worked example of a record requiring "cat" and 3 to 10 characters. */
  function CatRecord(): ConditionRecord {
    ConditionRecord(Some(3), Some(10), Some("cat"), Some("u1"))
  }

  lemma CatExampleMissing()
    ensures CheckConditions("dog", CatRecord()) == "Does not contain cat"
  {
    assert Lower("cat") == "cat" && Lower("dog") == "dog";
    assert "dog"[0..3] == "dog";
    assert !IsSubstring("cat", "dog");
  }

  lemma MinSampleHead()
    ensures MinPrefix + "3" + LengthInfix == "Does not meet min length of 3 characters. Current length: "
  {
    assert LengthInfix == " characters." + " Current length: ";
    assert MinPrefix + "3" + " characters." == "Does not meet min length of 3 characters.";
  }

  /** The min message for bound 3 and length 2, spelled out. */
  lemma MinMessageSample()
    ensures MinMessage(3, 2) == "Does not meet min length of 3 characters. Current length: 2"
  {
    assert IntToString(3) == "3" && IntToString(2) == "2";
    assert MinMessage(3, 2) == MinPrefix + ("3" + LengthInfix + "2");
    assert MinPrefix + ("3" + LengthInfix + "2") == MinPrefix + "3" + LengthInfix + "2";
    MinSampleHead();
  }

  lemma MaxSampleHead()
    ensures MaxPrefix + "10" + LengthInfix == "Exceeds max length of 10 characters. Current length: "
  {
    assert LengthInfix == " characters." + " Current length: ";
    assert MaxPrefix + "10" + " characters." == "Exceeds max length of 10 characters.";
  }

  /** The max message for bound 10 and length 24, spelled out. */
  lemma MaxMessageSample()
    ensures MaxMessage(10, 24) == "Exceeds max length of 10 characters. Current length: 24"
  {
    assert IntToString(10) == "10" && IntToString(24) == "24";
    assert MaxMessage(10, 24) == MaxPrefix + ("10" + LengthInfix + "24");
    assert MaxPrefix + ("10" + LengthInfix + "24") == MaxPrefix + "10" + LengthInfix + "24";
    MaxSampleHead();
  }

  lemma CatExampleShort()
    ensures CheckConditions("ab", CatRecord()) == "Does not meet min length of 3 characters. Current length: 2"
  {
    MinMessageSample();
    MinCheckedFirst("ab", CatRecord());
  }

  lemma CatExampleLong()
    ensures CheckConditions("a very long catfish name", CatRecord())
         == "Exceeds max length of 10 characters. Current length: 24"
  {
    MaxMessageSample();
    MaxCheckedSecond("a very long catfish name", CatRecord());
  }

  lemma CatExampleValid()
    ensures CheckConditions("my cat", CatRecord()) == ValidVerdict
    ensures CheckConditions("Hello World", ConditionRecord(None, None, Some("hello"), None)) == ValidVerdict
  {
    assert OccursAt("cat", Lower("my cat"), 3);
    assert OccursAt("hello", Lower("Hello World"), 0);
  }
}
