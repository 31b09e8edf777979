/** The dataset rows and the two columns `load_data` derives from them: the
    trial key `DogID_TestNum` and the combined `Behavior` label. */
module Records {
  import opened Options
  import opened Decimal

  const Int64Min: int := -0x8000_0000_0000_0000
  const Int64Max: int := 0x7FFF_FFFF_FFFF_FFFF

  /** Why `astype(int)` rejects the concatenated id text. */
  datatype KeyError =
    | InvalidLiteral(text: string)  // not an integer literal, e.g. "12-3"
    | Overflow(value: int)          // an integer that does not fit in int64

  datatype Result<T> = Ok(value: T) | Err(error: KeyError)

  /** One row of the sensor file, as far as the core reads it. The neck
      acceleration magnitude is carried as given. */
  datatype Row = Row(
    dogID: int,
    testNum: int,
    tSec: real,
    aNeckRms: real,
    behavior1: string,
    behavior2: string,
    behavior3: string)

  /** A row with its derived columns. */
  datatype Record = Record(row: Row, trialKey: int, behavior: string)

  /** The record belongs to trial `id` and carries exactly the label `b`. */
  predicate Matches(rec: Record, id: int, b: string) {
    rec.trialKey == id && rec.behavior == b
  }

  /** `str(DogID) + str(TestNum)`. */
  function TrialKeyText(dogID: int, testNum: int): (text: string)
    ensures |text| >= 2
    ensures dogID >= 0 && testNum >= 0 ==> AllDigits(text)
    ensures testNum < 0 ==> |IntToString(dogID)| < |text| && text[|IntToString(dogID)|] == '-'
  {
    IntToString(dogID) + IntToString(testNum)
  }

  /** `int(str(DogID) + str(TestNum))` stored in an int64 column. */
  function TrialKey(dogID: int, testNum: int): (r: Result<int>)
    ensures r.Ok? ==> Int64Min <= r.value <= Int64Max
  {
    match ParseInt(TrialKeyText(dogID, testNum))
    case None => Err(InvalidLiteral(TrialKeyText(dogID, testNum)))
    case Some(v) => if Int64Min <= v <= Int64Max then Ok(v) else Err(Overflow(v))
  }

  /** For non-negative ids the key is `DogID` shifted left by as many decimal
      places as `TestNum` has digits, plus `TestNum`. */
  lemma TrialKeyOfNaturals(dogID: nat, testNum: nat)
    ensures var v := dogID * Pow10(|NatToString(testNum)|) + testNum;
      TrialKey(dogID, testNum) == if v <= Int64Max then Ok(v) else Err(Overflow(v))
  {
    var a, b := NatToString(dogID), NatToString(testNum);
    assert IntToString(dogID) == a && IntToString(testNum) == b;
    DigitsValueAppend(a, b);
    var v := dogID * Pow10(|b|) + testNum;
    assert DigitsValue(a + b) == v;
    assert ParseInt(TrialKeyText(dogID, testNum)) == Some(v);
    TrialKeyOfValue(dogID, testNum, v);
  }

  /** For a positive `DogID`, the key written in decimal is the digits of
      `DogID` followed by the digits of `TestNum`. */
  lemma TrialKeyDigits(dogID: nat, testNum: nat)
    requires dogID > 0
    requires dogID * Pow10(|NatToString(testNum)|) + testNum <= Int64Max
    ensures TrialKey(dogID, testNum).Ok?
    ensures IntToString(TrialKey(dogID, testNum).value) == IntToString(dogID) + IntToString(testNum)
  {
    var a, b := NatToString(dogID), NatToString(testNum);
    TrialKeyOfNaturals(dogID, testNum);
    DigitsValueAppend(a, b);
    assert (a + b)[0] == a[0] != '0';
    CanonicalDigits(a + b);
    assert IntToString(DigitsValue(a + b)) == a + b;
  }

  /** A negative `DogID` puts its minus sign in front of the whole key: the
      key is the negated shifted value, or an overflow error below the int64
      minimum. */
  lemma TrialKeyNegativeDog(dogID: int, testNum: nat)
    requires dogID < 0
    ensures var v := -((-dogID) * Pow10(|NatToString(testNum)|) + testNum);
      TrialKey(dogID, testNum) == if Int64Min <= v then Ok(v) else Err(Overflow(v))
  {
    var v := -((-dogID) * Pow10(|NatToString(testNum)|) + testNum);
    NegativeDogParse(dogID, testNum);
    TrialKeyOfValue(dogID, testNum, v);
  }

  lemma NegativeDogParse(dogID: int, testNum: nat)
    requires dogID < 0
    ensures ParseInt(TrialKeyText(dogID, testNum)) == Some(-((-dogID) * Pow10(|NatToString(testNum)|) + testNum))
  {
    var a, b := NatToString(-dogID), NatToString(testNum);
    var m := DigitsValue(a) * Pow10(|b|) + DigitsValue(b);
    assert m == (-dogID) * Pow10(|b|) + testNum;
    ParseNegativeDigits(a, b);
    NegativeDogText(dogID, testNum);
  }

  /** A key text that reads as `v` converts to `v`, or overflows outside int64. */
  lemma TrialKeyOfValue(dogID: int, testNum: int, v: int)
    requires ParseInt(TrialKeyText(dogID, testNum)) == Some(v)
    ensures TrialKey(dogID, testNum) == if Int64Min <= v <= Int64Max then Ok(v) else Err(Overflow(v))
  {
  }

  lemma NegativeDogText(dogID: int, testNum: nat)
    requires dogID < 0
    ensures TrialKeyText(dogID, testNum) == "-" + (NatToString(-dogID) + NatToString(testNum))
  {
    var a, b := NatToString(-dogID), NatToString(testNum);
    assert IntToString(dogID) == "-" + a && IntToString(testNum) == b;
    assert ("-" + a) + b == "-" + (a + b);
  }

  /** A negative `TestNum` leaves a minus sign inside the text, which is not
      an integer literal: the conversion fails. */
  lemma TrialKeyNegativeTestRejected(dogID: int, testNum: int)
    requires testNum < 0
    ensures TrialKey(dogID, testNum) == Err(InvalidLiteral(TrialKeyText(dogID, testNum)))
  {
    var text := TrialKeyText(dogID, testNum);
    var d := IntToString(dogID);
    var k := |d|;
    assert text[k] == '-';
    assert k >= 1;
    assert !IsDigit(text[k]);
    if |text| > 1 && (text[0] == '-' || text[0] == '+') {
      assert !IsDigit(text[1..][k - 1]);
    }
  }

  /** Distinct (DogID, TestNum) pairs can share a key: (1, 23) and (12, 3)
      both become 123. */
  lemma TrialKeyCollision()
    ensures TrialKey(1, 23) == TrialKey(12, 3) == Ok(123)
  {
    assert NatToString(23) == "23" && NatToString(3) == "3";
    TrialKeyOfNaturals(1, 23);
    TrialKeyOfNaturals(12, 3);
  }

  /** Among non-negative pairs whose `TestNum` has the same number of digits,
      the key does tell the pairs apart. */
  lemma TrialKeyInjectiveSameWidth(dog1: nat, test1: nat, dog2: nat, test2: nat)
    requires |NatToString(test1)| == |NatToString(test2)|
    requires TrialKey(dog1, test1).Ok? && TrialKey(dog1, test1) == TrialKey(dog2, test2)
    ensures dog1 == dog2 && test1 == test2
  {
    var p := Pow10(|NatToString(test1)|);
    TrialKeyOfNaturals(dog1, test1);
    TrialKeyOfNaturals(dog2, test2);
    assert dog1 * p + test1 == dog2 * p + test2;
    assert test1 < p && test2 < p;
    ShiftedUnique(dog1, test1, dog2, test2, p);
  }

  lemma ShiftedUnique(a1: nat, b1: nat, a2: nat, b2: nat, p: nat)
    requires b1 < p && b2 < p && a1 * p + b1 == a2 * p + b2
    ensures a1 == a2 && b1 == b2
  {
    if a1 < a2 {
      MulStep(a1, a2, p);
      assert false;
    } else if a2 < a1 {
      MulStep(a2, a1, p);
      assert false;
    }
  }

  lemma MulStep(x: nat, y: nat, p: nat)
    requires x < y
    ensures x * p + p <= y * p
  {
    assert y * p == x * p + p + (y - x - 1) * p;
  }

  /** The three behaviour columns joined with `'_'.join`. */
  function JoinLabels(b1: string, b2: string, b3: string): (r: string)
    ensures |r| == |b1| + |b2| + |b3| + 2
  {
    b1 + "_" + b2 + "_" + b3
  }

  /** The position of the first `c` in `s`, if any. */
  function IndexOf(s: string, c: char): (r: Option<nat>)
    ensures r.Some? ==> r.value < |s| && s[r.value] == c && c !in s[..r.value]
    ensures r.None? ==> c !in s
  {
    if s == [] then None
    else if s[0] == c then Some(0)
    else
      match IndexOf(s[1..], c)
      case None => None
      case Some(i) =>
        assert s[..i + 1] == [s[0]] + s[1..][..i];
        Some(i + 1)
  }

  /** Split a label at its first two underscores (the inverse of `JoinLabels`
      on labels whose first two parts have no underscore). */
  function SplitLabels(s: string): Option<(string, string, string)> {
    match IndexOf(s, '_')
    case None => None
    case Some(i) =>
      match IndexOf(s[i + 1..], '_')
      case None => None
      case Some(j) => Some((s[..i], s[i + 1..][..j], s[i + 1..][j + 1..]))
  }

  /** Splitting a joined label gives back its three parts. */
  lemma SplitJoinLabels(b1: string, b2: string, b3: string)
    requires '_' !in b1 && '_' !in b2
    ensures SplitLabels(JoinLabels(b1, b2, b3)) == Some((b1, b2, b3))
  {
    var s := JoinLabels(b1, b2, b3);
    IndexOfFirst(b1, '_', b2 + "_" + b3);
    assert s == b1 + "_" + (b2 + "_" + b3);
    var t := s[|b1| + 1..];
    assert t == b2 + "_" + b3;
    IndexOfFirst(b2, '_', b3);
    assert SplitLabels(s) == Some((s[..|b1|], t[..|b2|], t[|b2| + 1..]));
    assert s[..|b1|] == b1 && t[..|b2|] == b2 && t[|b2| + 1..] == b3;
  }

  /** The first `c` in `x + [c] + rest`, where `x` has none, is at `|x|`. */
  lemma {:induction false} IndexOfFirst(x: string, c: char, rest: string)
    requires c !in x
    ensures IndexOf(x + [c] + rest, c) == Some(|x|)
  {
    if x != [] {
      assert (x + [c] + rest)[1..] == x[1..] + [c] + rest;
      IndexOfFirst(x[1..], c, rest);
    }
  }

  /** A label with underscores at positions `i` and `i + 1 + j` is the join
      of the three pieces around them. */
  lemma JoinAround(s: string, i: nat, j: nat)
    requires i + 1 + j < |s| && s[i] == '_' && s[i + 1 + j] == '_'
    ensures JoinLabels(s[..i], s[i + 1..i + 1 + j], s[i + 2 + j..]) == s
  {
    var k := i + 1 + j;
    assert s[..i] + "_" + s[i + 1..k] == s[..k];
    assert s[..k] + "_" + s[k + 1..] == s;
  }

  /** Joining the parts of a split label gives back the label. */
  lemma JoinSplitLabels(s: string)
    requires SplitLabels(s).Some?
    ensures JoinLabels(SplitLabels(s).value.0, SplitLabels(s).value.1, SplitLabels(s).value.2) == s
  {
    var i := IndexOf(s, '_').value;
    var t := s[i + 1..];
    var j := IndexOf(t, '_').value;
    assert SplitLabels(s).value == (s[..i], t[..j], t[j + 1..]);
    assert t[..j] == s[i + 1..i + 1 + j] && t[j + 1..] == s[i + 2 + j..];
    JoinAround(s, i, j);
  }

  /** The derived columns of one row, or why its key cannot be converted. */
  function DeriveRecord(row: Row): (r: Result<Record>)
    ensures r.Ok? ==>
      && r.value.row == row
      && TrialKey(row.dogID, row.testNum) == Ok(r.value.trialKey)
      && r.value.behavior == JoinLabels(row.behavior1, row.behavior2, row.behavior3)
    ensures r.Err? ==> TrialKey(row.dogID, row.testNum) == Err(r.error)
  {
    match TrialKey(row.dogID, row.testNum)
    case Err(e) => Err(e)
    case Ok(key) => Ok(Record(row, key, JoinLabels(row.behavior1, row.behavior2, row.behavior3)))
  }

  /** Apply `f` to every element in order; the result is every value, or the
      error of the first element `f` rejects. */
  function Traverse<A, B>(f: A -> Result<B>, s: seq<A>): (r: Result<seq<B>>)
    ensures r.Ok? <==> forall i :: 0 <= i < |s| ==> f(s[i]).Ok?
    ensures r.Ok? ==> |r.value| == |s|
    ensures r.Ok? ==> forall i :: 0 <= i < |s| ==> f(s[i]) == Ok(r.value[i])
    ensures r.Err? ==>
      exists i :: 0 <= i < |s| && f(s[i]) == Err(r.error) && forall j :: 0 <= j < i ==> f(s[j]).Ok?
  {
    if s == [] then Ok([])
    else
      match f(s[0])
      case Err(e) => Err(e)
      case Ok(b) =>
        match Traverse(f, s[1..])
        case Err(e) =>
          var i :| 0 <= i < |s| - 1 && f(s[1..][i]) == Err(e) &&
            forall j :: 0 <= j < i ==> f(s[1..][j]).Ok?;
          assert forall j :: 1 <= j < i + 1 ==> s[j] == s[1..][j - 1];
          Err(e)
        case Ok(bs) =>
          var r := [b] + bs;
          assert forall i :: 1 <= i < |s| ==> s[i] == s[1..][i - 1] && r[i] == bs[i - 1];
          Ok(r)
  }

  /** `load_data` after the file read: every row gains its trial key and its
      behaviour label; the conversion of the key column fails as a whole, with
      the error of the first row whose key is not an int64 literal. */
  function LoadData(rows: seq<Row>): (r: Result<seq<Record>>)
    ensures r.Ok? <==> forall i :: 0 <= i < |rows| ==> TrialKey(rows[i].dogID, rows[i].testNum).Ok?
    ensures r.Ok? ==> |r.value| == |rows| && forall i :: 0 <= i < |rows| ==>
      && r.value[i].row == rows[i]
      && TrialKey(rows[i].dogID, rows[i].testNum) == Ok(r.value[i].trialKey)
      && r.value[i].behavior == JoinLabels(rows[i].behavior1, rows[i].behavior2, rows[i].behavior3)
    ensures r.Err? ==>
      exists i :: 0 <= i < |rows| && TrialKey(rows[i].dogID, rows[i].testNum) == Err(r.error) &&
        forall j :: 0 <= j < i ==> TrialKey(rows[j].dogID, rows[j].testNum).Ok?
  {
    var r := Traverse(DeriveRecord, rows);
    assert forall i :: 0 <= i < |rows| ==>
      (DeriveRecord(rows[i]).Ok? <==> TrialKey(rows[i].dogID, rows[i].testNum).Ok?);
    r
  }
}
