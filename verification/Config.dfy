/**
 The configuration registry: an array of parameters searched from the front, with case ignored
 and indices brought to one spelling before they are stored.

 `errno` is looked at after each number conversion and never cleared, so it is part of the
 state. What the C library makes of a floating-point spelling is a table the registry is given;
 a spelling outside the table is one that `strtod` reports as out of range.
 */
module Config {
  import opened Basics
  import opened Numerals

  const MAX_N_PARAMETERS := 65536

  datatype Parameter = Parameter(name: string, index: Option<string>, value: string)

  // ---- Names, indices and keys ----

  function Lower(c: char): char {
    if 'A' <= c <= 'Z' then (c as int + 32) as char else c
  }

  function Fold(s: string): (r: string)
    ensures |r| == |s|
  {
    seq(|s|, i requires 0 <= i < |s| => Lower(s[i]))
  }

  /** Under what a parameter is found: two parameters with one key are the same to a search. */
  datatype Key = Key(name: string, index: Option<string>)

  function KeyOf(name: string, index: Option<string>): Key {
    Key(Fold(name), if index.None? then None else Some(Fold(index.value)))
  }

  function ParameterKey(p: Parameter): Key { KeyOf(p.name, p.index) }

  // ---- convert_index ----

  /** How `%lf` prints a double, and what a cast to `long` makes of it. */
  datatype Double = Double(printed: string, truncated: int)

  type Doubles = map<string, Double>

  /** `%lf` always prints a decimal point. */
  predicate PrintsPoints(doubles: Doubles) {
    forall s :: s in doubles ==> '.' in doubles[s].printed
  }

  /** `[+-]?[0-9]+\.[0-9]+` */
  predicate IsReal(s: string) {
    exists k :: 0 < k < |s| - 1 && s[k] == '.' && IsDecimal(s[..k]) && AllDigits(s[k + 1..], 10)
  }

  datatype Number = Whole(value: int) | Real(spelling: string) | Text

  /** Which of the three number patterns the string meets, tried in the source's order. */
  function Classify(s: string): Number {
    var t := Trim(s);
    if IsDecimal(t) then Whole(DecimalValue(t))
    else if IsHex(t) then Whole(HexValue(t))
    else if IsReal(t) then Real(t)
    else Text
  }

  /** `strtol` and `strtod` set `errno` when the number does not fit. */
  predicate Overflows(s: string, doubles: Doubles) {
    match Classify(s)
    case Whole(v) => !InLong(v)
    case Real(t) => t !in doubles
    case Text => false
  }

  function ErrnoAfter(s: string, errno: bool, doubles: Doubles): bool {
    errno || Overflows(s, doubles)
  }

  function Convert(s: string, errno: bool, doubles: Doubles): string {
    if ErrnoAfter(s, errno, doubles) then s
    else
      match Classify(s)
      case Whole(v) => Print(v)
      case Real(t) => doubles[t].printed
      case Text => s
  }

  lemma FoldKeeps(s: string)
    requires IsDecimal(s)
    ensures Fold(s) == s
  {
    forall i | 0 <= i < |s| ensures Fold(s)[i] == s[i] {
      if i > 0 && IsSign(s[0]) {
        assert s[1..][i - 1] == s[i];
      }
    }
  }

  /** Only a decimal folds to a decimal: folding never makes a digit or a sign. */
  lemma FoldsToDecimal(s: string)
    requires IsDecimal(Fold(s))
    ensures Fold(s) == s
  {
    var f := Fold(s);
    forall i | 0 <= i < |s| ensures f[i] == s[i] {
      assert f[i] == Lower(s[i]);
      if i > 0 && IsSign(f[0]) {
        assert f[1..][i - 1] == f[i];
      }
    }
  }

  lemma DecimalHasNoPoint(s: string)
    requires IsDecimal(s)
    ensures '.' !in s
  {
    forall i | 0 <= i < |s| ensures s[i] != '.' {
      if i > 0 && IsSign(s[0]) {
        assert s[1..][i - 1] == s[i];
      }
    }
  }

  lemma ClassifyDecimal(before: string, s: string, after: string)
    requires AllBlank(before) && AllBlank(after) && IsDecimal(s)
    ensures Classify(before + s + after) == Whole(DecimalValue(s))
  {
    NumbersHaveNoBlanks(s);
    TrimBlanks(before, s, after);
  }

  /** Every decimal spelling of an integer: blanks around it, a sign, zeros in front. */
  lemma DecimalSpellingDenotes(before: string, sign: string, zeros: string, n: int, after: string)
    requires AllBlank(before) && AllBlank(after) && AllZeros(zeros) && n >= 0
    requires sign == [] || sign == ['+'] || sign == ['-']
    ensures Classify(before + (sign + (zeros + PrintNat(n, 10))) + after)
            == Whole(if sign == ['-'] then 0 - n else n)
  {
    DecimalSpelling(sign, zeros, n);
    ClassifyDecimal(before, sign + (zeros + PrintNat(n, 10)), after);
  }

  /** Every lower-case hexadecimal spelling of a non-negative integer. */
  lemma HexSpellingDenotes(before: string, zeros: string, n: nat, after: string)
    requires AllBlank(before) && AllBlank(after) && AllZeros(zeros)
    ensures Classify(before + (['0', 'x'] + (zeros + PrintNat(n, 16))) + after) == Whole(n)
  {
    var s := ['0', 'x'] + (zeros + PrintNat(n, 16));
    HexSpelling(zeros, n);
    NumbersHaveNoBlanks(s);
    TrimBlanks(before, s, after);
  }

  lemma PrintDenotes(v: int)
    ensures Classify(Print(v)) == Whole(v)
  {
    PrintRoundTrip(v);
    ClassifyDecimal([], Print(v), []);
    assert [] + Print(v) + [] == Print(v);
  }

  lemma PlainText(s: string)
    requires s != [] && !IsBlank(s[0]) && !IsBlank(s[|s| - 1])
    ensures Trim(s) == s
  {
    TrimBlanks([], s, []);
    assert [] + s + [] == s;
  }

  /** Blanks and tabs around a number do not count. */
  lemma BlankExample()
    ensures Classify("\t7 ") == Whole(7)
  {
    DecimalSpellingDenotes(['\t'], [], [], 7, [' ']);
    assert ['\t'] + ([] + ([] + PrintNat(7, 10))) + [' '] == "\t7 ";
  }

  /** A point makes a real number. */
  lemma RealExample()
    ensures Classify("1.5") == Real("1.5")
  {
    var s := "1.5";
    PlainText(s);
    assert s[..1] == "1" && s[2..] == "5" && s[1] == '.';
    assert !IsDigit(s[1], 10);
  }

  /** Capital digits and other letters make text. */
  lemma TextExample(s: string, k: nat)
    requires k < |s| && !IsBlank(s[0]) && !IsBlank(s[|s| - 1]) && 'A' <= s[k] <= 'Z' && '.' !in s
    ensures Classify(s) == Text
  {
    PlainText(s);
    if IsDecimal(s) {
      FoldKeeps(s);
      assert false;
    }
    NotHex(s, k);
  }

  lemma NotHex(s: string, k: nat)
    requires k < |s| && 'A' <= s[k] <= 'Z'
    ensures !IsHex(s)
  {
    assert |s| > 2 && k >= 2 ==> s[2..][k - 2] == s[k];
  }

  /** Converting the printed form changes nothing, whatever `errno` is. */
  lemma ConvertIdempotent(v: int, errno: bool, doubles: Doubles)
    requires InLong(v)
    ensures Convert(Print(v), errno, doubles) == Print(v)
    ensures ErrnoAfter(Print(v), errno, doubles) == errno
  {
    PrintDenotes(v);
  }

  /**
   When the stored form of an index is the one the integer `v` is looked up under: with `errno`
   clear exactly when the index spells `v`; once `errno` is set only if it was written the way
   `%ld` prints `v` to begin with.
   */
  lemma FoundByIntegerIff(s: string, errno: bool, doubles: Doubles, v: int)
    requires InLong(v) && PrintsPoints(doubles)
    ensures Fold(Convert(s, errno, doubles)) == Fold(Print(v))
            <==> (if errno then s == Print(v) else Classify(s) == Whole(v))
  {
    PrintRoundTrip(v);
    PrintDenotes(v);
    FoldKeeps(Print(v));
    var c := Convert(s, errno, doubles);
    if Fold(c) == Print(v) {
      FoldsToDecimal(c);
      if !ErrnoAfter(s, errno, doubles) {
        match Classify(s)
        case Whole(w) => PrintInjective(v, w);
        case Real(t) => DecimalHasNoPoint(Print(v));
        case Text =>
      }
    } else if errno {
      assert c == s;
    }
  }

  /** Two names are the same to a search exactly when they differ in nothing but the case of letters. */
  predicate SameLetter(c: char, d: char) {
    || c == d
    || ('A' <= c <= 'Z' && d as int == c as int + 32)
    || ('A' <= d <= 'Z' && c as int == d as int + 32)
  }

  lemma FoldsAlikeIff(a: string, b: string)
    ensures Fold(a) == Fold(b) <==> |a| == |b| && forall i :: 0 <= i < |a| ==> SameLetter(a[i], b[i])
  {
    if |a| == |b| {
      forall i | 0 <= i < |a| ensures Fold(a)[i] == Fold(b)[i] <==> SameLetter(a[i], b[i]) {
        assert Fold(a)[i] == Lower(a[i]) && Fold(b)[i] == Lower(b[i]);
      }
    }
  }

  // ---- The array as a map ----

  predicate UniqueKeys(ps: seq<Parameter>) {
    forall i, j :: 0 <= i < j < |ps| ==> ParameterKey(ps[i]) != ParameterKey(ps[j])
  }

  function ViewOf(ps: seq<Parameter>): map<Key, string> {
    if ps == [] then map[]
    else ViewOf(ps[..|ps| - 1])[ParameterKey(ps[|ps| - 1]) := ps[|ps| - 1].value]
  }

  lemma ViewPush(ps: seq<Parameter>, p: Parameter)
    ensures ViewOf(ps + [p]) == ViewOf(ps)[ParameterKey(p) := p.value]
  {
    assert (ps + [p])[..|ps|] == ps;
  }

  lemma {:induction false} ViewAbsent(ps: seq<Parameter>, k: Key)
    requires forall i :: 0 <= i < |ps| ==> ParameterKey(ps[i]) != k
    ensures k !in ViewOf(ps)
    decreases |ps|
  {
    if ps != [] {
      ViewAbsent(ps[..|ps| - 1], k);
    }
  }

  lemma {:induction false} ViewPresent(ps: seq<Parameter>, i: nat)
    requires UniqueKeys(ps) && i < |ps|
    ensures ParameterKey(ps[i]) in ViewOf(ps)
    ensures ViewOf(ps)[ParameterKey(ps[i])] == ps[i].value
    decreases |ps|
  {
    if i < |ps| - 1 {
      ViewPresent(ps[..|ps| - 1], i);
    }
  }

  lemma ReplaceKeepsUnique(ps: seq<Parameter>, i: nat, p: Parameter)
    requires UniqueKeys(ps) && i < |ps| && ParameterKey(ps[i]) == ParameterKey(p)
    ensures UniqueKeys(ps[i := p])
  {
  }

  lemma UpdatesSwap(m: map<Key, string>, a: Key, x: string, b: Key, y: string)
    requires a != b
    ensures m[a := x][b := y] == m[b := y][a := x]
  {
  }

  lemma {:induction false} ViewReplace(ps: seq<Parameter>, i: nat, p: Parameter)
    requires UniqueKeys(ps) && i < |ps| && ParameterKey(ps[i]) == ParameterKey(p)
    ensures ViewOf(ps[i := p]) == ViewOf(ps)[ParameterKey(p) := p.value]
    decreases |ps|
  {
    var n := |ps| - 1;
    if i < n {
      assert ps[i := p][..n] == ps[..n][i := p];
      ViewReplace(ps[..n], i, p);
      UpdatesSwap(ViewOf(ps[..n]), ParameterKey(p), p.value, ParameterKey(ps[n]), ps[n].value);
    } else {
      assert ps[i := p][..n] == ps[..n];
    }
  }

  /** One place for each key. */
  lemma {:induction false} ViewSize(ps: seq<Parameter>)
    requires UniqueKeys(ps)
    ensures |ViewOf(ps)| == |ps|
    decreases |ps|
  {
    if ps != [] {
      var n := |ps| - 1;
      ViewSize(ps[..n]);
      ViewAbsent(ps[..n], ParameterKey(ps[n]));
    }
  }

  // ---- Registration as it should act ----

  function StoredForm(d: Parameter, errno: bool, doubles: Doubles): Parameter {
    if d.index.None? then d else d.(index := Some(Convert(d.index.value, errno, doubles)))
  }

  function ErrnoAfterDefinition(d: Parameter, errno: bool, doubles: Doubles): bool {
    if d.index.None? then errno else ErrnoAfter(d.index.value, errno, doubles)
  }

  /** `errno` after the first `n` definitions. */
  function ErrnoAfterAll(ds: seq<Parameter>, n: nat, errno: bool, doubles: Doubles): bool
    requires n <= |ds|
  {
    if n == 0 then errno
    else ErrnoAfterDefinition(ds[n - 1], ErrnoAfterAll(ds, n - 1, errno, doubles), doubles)
  }

  /** The map after the first `n` definitions. */
  function Replay(m: map<Key, string>, ds: seq<Parameter>, n: nat, errno: bool, doubles: Doubles)
    : map<Key, string>
    requires n <= |ds|
  {
    if n == 0 then m
    else
      var p := StoredForm(ds[n - 1], ErrnoAfterAll(ds, n - 1, errno, doubles), doubles);
      Replay(m, ds, n - 1, errno, doubles)[ParameterKey(p) := p.value]
  }

  lemma {:induction false} ReplayGrows(m: map<Key, string>, ds: seq<Parameter>, n: nat, n': nat, errno: bool,
                                       doubles: Doubles)
    requires n <= n' <= |ds|
    ensures |Replay(m, ds, n, errno, doubles)| <= |Replay(m, ds, n', errno, doubles)|
    decreases n'
  {
    if n < n' {
      ReplayGrows(m, ds, n, n' - 1, errno, doubles);
      var p := StoredForm(ds[n' - 1], ErrnoAfterAll(ds, n' - 1, errno, doubles), doubles);
      UpdateGrows(Replay(m, ds, n' - 1, errno, doubles), ParameterKey(p), p.value);
    }
  }

  lemma UpdateGrows(m: map<Key, string>, k: Key, value: string)
    ensures |m[k := value]| == if k in m then |m| else |m| + 1
  {
    assert m[k := value].Keys == m.Keys + {k};
    assert |m.Keys| == |m| && |m[k := value].Keys| == |m[k := value]|;
  }

  /** The array has room for the keys of the first `n` definitions. */
  predicate Fit(m: map<Key, string>, ds: seq<Parameter>, n: nat, errno: bool, doubles: Doubles)
    requires n <= |ds|
  {
    |Replay(m, ds, n, errno, doubles)| <= MAX_N_PARAMETERS
  }

  lemma FitBefore(m: map<Key, string>, ds: seq<Parameter>, n: nat, errno: bool, doubles: Doubles)
    requires n <= |ds| && Fit(m, ds, |ds|, errno, doubles)
    ensures Fit(m, ds, n, errno, doubles)
  {
    ReplayGrows(m, ds, n, |ds|, errno, doubles);
  }

  /** If the map with one more definition fits, there is a place for it or its key is there already. */
  lemma RoomForNext(ps: seq<Parameter>, p: Parameter)
    requires UniqueKeys(ps) && |ViewOf(ps)[ParameterKey(p) := p.value]| <= MAX_N_PARAMETERS
    ensures |ps| < MAX_N_PARAMETERS || ParameterKey(p) in ViewOf(ps)
  {
    ViewSize(ps);
    UpdateGrows(ViewOf(ps), ParameterKey(p), p.value);
  }

  /** The indexed parameter, else the unindexed one. */
  function Lookup(m: map<Key, string>, name: string, i: int): Option<string> {
    var k := KeyOf(name, Some(Print(i)));
    if k in m then Some(m[k])
    else if KeyOf(name, None) in m then Some(m[KeyOf(name, None)])
    else None
  }

  /** `get_l_value`: the number a value spells, or the default, and `errno` afterwards. */
  function LongValue(value: string, default: int, errno: bool, doubles: Doubles): int {
    if ErrnoAfter(value, errno, doubles) then default
    else
      match Classify(value)
      case Whole(v) => v
      case Real(t) => doubles[t].truncated
      case Text => default
  }

  /** Every decimal spelling of a value that fits is returned as its number. */
  lemma DecimalValueReturned(before: string, sign: string, zeros: string, n: int, after: string, v: int,
                             default: int, doubles: Doubles)
    requires AllBlank(before) && AllBlank(after) && AllZeros(zeros) && n >= 0
    requires sign == [] || sign == ['+'] || sign == ['-']
    requires v == (if sign == ['-'] then 0 - n else n) && -2147483648 <= v <= 2147483647
    ensures LongValue(before + (sign + (zeros + PrintNat(n, 10))) + after, default, false, doubles) == v
  {
    DecimalSpellingDenotes(before, sign, zeros, n, after);
  }

  /** So is every lower-case hexadecimal spelling. */
  lemma HexValueReturned(before: string, zeros: string, n: nat, after: string, default: int, doubles: Doubles)
    requires AllBlank(before) && AllBlank(after) && AllZeros(zeros) && n <= 2147483647
    ensures LongValue(before + (['0', 'x'] + (zeros + PrintNat(n, 16))) + after, default, false, doubles) == n
  {
    HexSpellingDenotes(before, zeros, n, after);
  }

  /** A value gives the default, whatever that is, exactly when `errno` is set, the value is no number or it does
      not fit. */
  lemma DefaultReturnedIff(value: string, default: int, other: int, errno: bool, doubles: Doubles)
    requires default != other
    ensures LongValue(value, default, errno, doubles) == default && LongValue(value, other, errno, doubles) == other
            <==> errno || Overflows(value, doubles) || Classify(value).Text?
    ensures Classify(value).Whole? ==>
              (Overflows(value, doubles) <==> !(-2147483648 <= Classify(value).value <= 2147483647))
    ensures Classify(value).Real? ==> (Overflows(value, doubles) <==> Classify(value).spelling !in doubles)
  {
  }

  // ---- What the reader of a configuration file means ----

  /** The definition is for `name` without index (`None`) or for the integer index `i`. */
  predicate IsFor(d: Parameter, name: string, target: Option<int>) {
    Fold(d.name) == Fold(name)
    && if target.None? then d.index.None?
       else d.index.Some? && Classify(d.index.value) == Whole(target.value)
  }

  /** The last of the first `n` definitions that is for the target. */
  function LastFor(ds: seq<Parameter>, n: nat, name: string, target: Option<int>): Option<string>
    requires n <= |ds|
  {
    if n == 0 then None
    else if IsFor(ds[n - 1], name, target) then Some(ds[n - 1].value)
    else LastFor(ds, n - 1, name, target)
  }

  predicate NoOverflow(ds: seq<Parameter>, doubles: Doubles) {
    forall i :: 0 <= i < |ds| && ds[i].index.Some? ==> !Overflows(ds[i].index.value, doubles)
  }

  lemma {:induction false} ErrnoStaysClear(ds: seq<Parameter>, n: nat, doubles: Doubles)
    requires n <= |ds| && NoOverflow(ds, doubles)
    ensures !ErrnoAfterAll(ds, n, false, doubles)
  {
    if n > 0 {
      ErrnoStaysClear(ds, n - 1, doubles);
    }
  }

  /** The definition, read while `errno` has this value, is stored where the target looks. */
  predicate Reaches(d: Parameter, name: string, target: Option<int>, errno: bool) {
    if !errno || target.None? then IsFor(d, name, target)
    else Fold(d.name) == Fold(name) && d.index == Some(Print(target.value))
  }

  function LastReaching(ds: seq<Parameter>, n: nat, name: string, target: Option<int>, errno: bool,
                        doubles: Doubles): Option<string>
    requires n <= |ds|
  {
    if n == 0 then None
    else if Reaches(ds[n - 1], name, target, ErrnoAfterAll(ds, n - 1, errno, doubles))
    then Some(ds[n - 1].value)
    else LastReaching(ds, n - 1, name, target, errno, doubles)
  }

  function TargetKey(name: string, target: Option<int>): Key {
    KeyOf(name, if target.None? then None else Some(Print(target.value)))
  }

  lemma StoredUnderTarget(d: Parameter, errno: bool, doubles: Doubles, name: string,
                          target: Option<int>)
    requires PrintsPoints(doubles) && (target.Some? ==> InLong(target.value))
    ensures ParameterKey(StoredForm(d, errno, doubles)) == TargetKey(name, target)
            <==> Reaches(d, name, target, errno)
  {
    if target.Some? && d.index.Some? {
      FoundByIntegerIff(d.index.value, errno, doubles, target.value);
    }
  }

  /** For every list of definitions, the map holds the last definition that reaches the target. */
  lemma {:induction false} ReplayIsLastReaching(ds: seq<Parameter>, n: nat, errno: bool,
                                                doubles: Doubles, name: string,
                                                target: Option<int>, k: Key)
    requires n <= |ds| && PrintsPoints(doubles)
    requires target.Some? ==> InLong(target.value)
    requires k == TargetKey(name, target)
    ensures var m := Replay(map[], ds, n, errno, doubles);
            LastReaching(ds, n, name, target, errno, doubles) == if k in m then Some(m[k]) else None
  {
    if n > 0 {
      ReplayIsLastReaching(ds, n - 1, errno, doubles, name, target, k);
      StoredUnderTarget(ds[n - 1], ErrnoAfterAll(ds, n - 1, errno, doubles), doubles, name, target);
    }
  }

  /**
   A definition reaches exactly the integers it spells if and only if `errno` was clear when it
   was read or its index was written as `%ld` prints it (or spells no `long` at all).
   */
  lemma ReachesAsMeantIff(d: Parameter, errno: bool)
    ensures (forall i :: InLong(i) ==> (Reaches(d, d.name, Some(i), errno) <==> IsFor(d, d.name, Some(i))))
            <==> (!errno || d.index.None? || !SpellsLong(d.index.value) || PrintedAsIs(d.index.value))
  {
    if errno && d.index.Some? {
      var s := d.index.value;
      forall i: int | s == Print(i) ensures Classify(s) == Whole(i) {
        PrintDenotes(i);
      }
      if SpellsLong(s) {
        var v := Classify(s).value;
        assert IsFor(d, d.name, Some(v));
        assert PrintedAsIs(s) <==> Reaches(d, d.name, Some(v), errno);
      }
    }
  }

  predicate SpellsLong(s: string) { Classify(s).Whole? && InLong(Classify(s).value) }

  predicate PrintedAsIs(s: string)
    requires SpellsLong(s)
  {
    s == Print(Classify(s).value)
  }

  lemma {:induction false} LastReachingIsLastFor(ds: seq<Parameter>, n: nat, doubles: Doubles,
                                                 name: string, target: Option<int>)
    requires n <= |ds| && NoOverflow(ds, doubles)
    ensures LastReaching(ds, n, name, target, false, doubles) == LastFor(ds, n, name, target)
  {
    if n > 0 {
      LastReachingIsLastFor(ds, n - 1, doubles, name, target);
      ErrnoStaysClear(ds, n - 1, doubles);
    }
  }

  /**
   From file to lookup, for every list of definitions and every `errno` to begin with: the last
   definition that reaches `name` at `i`, else the last one of `name` without index.
   */
  lemma LookupIsLastReaching(ds: seq<Parameter>, errno: bool, doubles: Doubles, name: string, i: int)
    requires PrintsPoints(doubles) && InLong(i)
    ensures var indexed := LastReaching(ds, |ds|, name, Some(i), errno, doubles);
            Lookup(Replay(map[], ds, |ds|, errno, doubles), name, i)
            == if indexed.Some? then indexed
               else LastReaching(ds, |ds|, name, None, errno, doubles)
  {
    ReplayIsLastReaching(ds, |ds|, errno, doubles, name, Some(i), TargetKey(name, Some(i)));
    ReplayIsLastReaching(ds, |ds|, errno, doubles, name, None, TargetKey(name, None));
  }

  /**
   In terms of what the file says: if no index overflows, asking for `name` at integer `i` gives the value
   of the last definition that spells `i` in any way; failing that, of the last definition of
   `name` without index; failing that, nothing.
   */
  lemma LookupIsLastDefinition(ds: seq<Parameter>, doubles: Doubles, name: string, i: int)
    requires NoOverflow(ds, doubles) && PrintsPoints(doubles) && InLong(i)
    ensures var indexed := LastFor(ds, |ds|, name, Some(i));
            Lookup(Replay(map[], ds, |ds|, false, doubles), name, i)
            == if indexed.Some? then indexed else LastFor(ds, |ds|, name, None)
  {
    LookupIsLastReaching(ds, false, doubles, name, i);
    LastReachingIsLastFor(ds, |ds|, doubles, name, Some(i));
    LastReachingIsLastFor(ds, |ds|, doubles, name, None);
  }

  /** A number that was printed into the last definition for `name` at `i` is what a lookup returns. */
  lemma StoredLongComesBack(ds: seq<Parameter>, doubles: Doubles, name: string, i: int, v: int, default: int)
    requires NoOverflow(ds, doubles) && PrintsPoints(doubles) && InLong(i) && InLong(v)
    requires LastFor(ds, |ds|, name, Some(i)) == Some(Print(v))
    ensures var found := Lookup(Replay(map[], ds, |ds|, false, doubles), name, i);
            found.Some? && LongValue(found.value, default, ErrnoAfterAll(ds, |ds|, false, doubles), doubles) == v
  {
    LookupIsLastDefinition(ds, doubles, name, i);
    ErrnoStaysClear(ds, |ds|, doubles);
    PrintDenotes(v);
  }

  /**
   Without `NoOverflow` that fails: one index that overflows spoils every later spelling other
   than the printed one. The second definition is for `name` at `i`, and is not found there.
   */
  lemma OverflowSpoilsLaterSpellings(first: Parameter, second: Parameter, doubles: Doubles, i: int)
    requires PrintsPoints(doubles) && InLong(i)
    requires first.index.Some? && Overflows(first.index.value, doubles)
    requires IsFor(second, second.name, Some(i)) && second.index.value != Print(i)
    requires Fold(first.name) != Fold(second.name)
    ensures LastFor([first, second], 2, second.name, Some(i)) == Some(second.value)
    ensures Lookup(Replay(map[], [first, second], 2, false, doubles), second.name, i) == None
  {
    var ds := [first, second];
    FoundByIntegerIff(second.index.value, true, doubles, i);
    assert ErrnoAfterAll(ds, 0, false, doubles) == false;
    assert ErrnoAfterAll(ds, 1, false, doubles);
    assert Replay(map[], ds, 0, false, doubles) == map[];
    assert Replay(map[], ds, 1, false, doubles) == map[ParameterKey(first) := first.value];
  }

  /** An instance: after an index one above the largest `long`, `01` is no longer 1. */
  lemma OneIsLost(doubles: Doubles, value: string)
    requires PrintsPoints(doubles)
    ensures var ds := [Parameter("a", Some(Print(LONG_MAX + 1)), value), Parameter("b", Some("01"), value)];
            Lookup(Replay(map[], ds, 2, false, doubles), "b", 1) == None
  {
    PrintDenotes(LONG_MAX + 1);
    OneSpelled();
    assert Fold("a")[0] != Fold("b")[0];
    OverflowSpoilsLaterSpellings(Parameter("a", Some(Print(LONG_MAX + 1)), value),
                                 Parameter("b", Some("01"), value), doubles, 1);
  }

  lemma OneSpelled()
    ensures Classify("01") == Whole(1) && "01" != Print(1)
  {
    DecimalSpellingDenotes([], [], "0", 1, []);
    assert [] + ([] + ("0" + PrintNat(1, 10))) + [] == "01";
    assert |Print(1)| == 1;
  }

  // ---- The registry ----

  class Registry {
    const parameters: array<Parameter>
    const doubles: Doubles
    var count: nat
    var errno: bool

    ghost predicate Valid()
      reads this, parameters
    {
      parameters.Length == MAX_N_PARAMETERS
      && count <= MAX_N_PARAMETERS
      && UniqueKeys(parameters[..count])
    }

    ghost function View(): map<Key, string>
      reads this, parameters
      requires Valid()
    {
      ViewOf(parameters[..count])
    }

    /** `config_init` */
    constructor (doubles: Doubles)
      ensures Valid() && fresh(parameters) && count == 0 && !errno
      ensures View() == map[] && this.doubles == doubles
    {
      this.doubles := doubles;
      parameters := new Parameter[MAX_N_PARAMETERS](_ => Parameter("", None, ""));
      count := 0;
      errno := false;
    }

    /** The place of a key, or -1. */
    method Search(name: string, index: Option<string>) returns (i: int)
      requires Valid()
      ensures -1 <= i < count
      ensures i >= 0 <==> KeyOf(name, index) in View()
      ensures i >= 0 ==> ParameterKey(parameters[i]) == KeyOf(name, index)
                         && View()[KeyOf(name, index)] == parameters[i].value
    {
      ghost var ps, k := parameters[..count], KeyOf(name, index);
      i := 0;
      while i < count
        invariant 0 <= i <= count
        invariant forall j :: 0 <= j < i ==> ParameterKey(ps[j]) != k
      {
        var p := parameters[i];
        assert p == ps[i];
        if Fold(p.name) == Fold(name) {
          if index.None? && p.index.None? {
            ViewPresent(ps, i);
            return;
          }
          if index.Some? && p.index.Some? && Fold(p.index.value) == Fold(index.value) {
            ViewPresent(ps, i);
            return;
          }
        }
        i := i + 1;
      }
      ViewAbsent(ps, k);
      i := -1;
    }

    /** Writes beyond the array are the caller's to avoid, as in the source. */
    method RegisterIfNew(p: Parameter)
      requires Valid()
      requires count < MAX_N_PARAMETERS || ParameterKey(p) in View()
      modifies this`count, parameters
      ensures Valid() && old(count) <= count <= old(count) + 1
      ensures View() == old(View())[ParameterKey(p) := p.value]
      ensures count == if ParameterKey(p) in old(View()) then old(count) else old(count) + 1
    {
      ghost var ps := parameters[..count];
      var i := Search(p.name, p.index);
      if i < 0 {
        forall j | 0 <= j < |ps| ensures ParameterKey(ps[j]) != ParameterKey(p) {
          ViewPresent(ps, j);
        }
        parameters[count] := p;
        count := count + 1;
        assert parameters[..count] == ps + [p];
        ViewPush(ps, p);
      } else {
        parameters[i] := p;
        assert parameters[..count] == ps[i := p];
        ReplaceKeepsUnique(ps, i, p);
        ViewReplace(ps, i, p);
      }
    }

    /** `register_parameter` with `convert_index`. */
    method Register(d: Parameter)
      requires Valid()
      requires count < MAX_N_PARAMETERS || ParameterKey(StoredForm(d, errno, doubles)) in View()
      modifies this, parameters
      ensures Valid()
      ensures errno == ErrnoAfterDefinition(d, old(errno), doubles)
      ensures var p := StoredForm(d, old(errno), doubles);
              View() == old(View())[ParameterKey(p) := p.value]
    {
      var p := StoredForm(d, errno, doubles);
      errno := ErrnoAfterDefinition(d, errno, doubles);
      RegisterIfNew(p);
    }

    /** The loop of `config_read_file`, over the definitions found in its lines. The array must have room for
        the different keys; a key that comes again takes no new place. */
    method RegisterAll(ds: seq<Parameter>)
      requires Valid() && Fit(View(), ds, |ds|, errno, doubles)
      modifies this, parameters
      ensures Valid()
      ensures errno == ErrnoAfterAll(ds, |ds|, old(errno), doubles)
      ensures View() == Replay(old(View()), ds, |ds|, old(errno), doubles)
    {
      ghost var m, e := View(), errno;
      for n := 0 to |ds|
        invariant Read(ds, n, m, e)
      {
        FitBefore(m, ds, n + 1, e, doubles);
        RegisterNext(ds, n, m, e);
      }
    }

    /** The first `n` definitions have been read, starting from map `m` and `errno` at `e`. */
    ghost predicate Read(ds: seq<Parameter>, n: nat, m: map<Key, string>, e: bool)
      reads this, parameters
    {
      && Valid() && n <= |ds| && errno == ErrnoAfterAll(ds, n, e, doubles)
      && View() == Replay(m, ds, n, e, doubles)
    }

    method RegisterNext(ds: seq<Parameter>, n: nat, ghost m: map<Key, string>, ghost e: bool)
      requires n < |ds| && Read(ds, n, m, e) && Fit(m, ds, n + 1, e, doubles)
      modifies this, parameters
      ensures Read(ds, n + 1, m, e)
    {
      ghost var p := StoredForm(ds[n], errno, doubles);
      assert Replay(m, ds, n + 1, e, doubles) == View()[ParameterKey(p) := p.value];
      RoomForNext(parameters[..count], p);
      Register(ds[n]);
    }

    method GetString(name: string, i: int, default: string) returns (value: string)
      requires Valid()
      ensures var found := Lookup(View(), name, i);
              value == if found.Some? then found.value else default
    {
      var at := Search(name, Some(Print(i)));
      if at < 0 {
        at := Search(name, None);
        if at < 0 {
          return default;
        }
      }
      value := parameters[at].value;
    }

    method GetLong(name: string, i: int, default: int) returns (value: int)
      requires Valid()
      modifies this`errno
      ensures Valid() && View() == old(View())
      ensures match Lookup(View(), name, i)
              case None => value == default && errno == old(errno)
              case Some(s) => value == LongValue(s, default, old(errno), doubles)
                              && errno == ErrnoAfter(s, old(errno), doubles)
    {
      var at := Search(name, Some(Print(i)));
      if at < 0 {
        at := Search(name, None);
        if at < 0 {
          return default;
        }
      }
      var s := parameters[at].value;
      value := LongValue(s, default, errno, doubles);
      errno := ErrnoAfter(s, errno, doubles);
    }
  }
}
