/** The canonical typed tree of a JSON value, from which the Manager computes its digests. */
module CanonicalTree {
  import opened Common
  import opened Decimals
  import opened CanonicalNumber
  import opened StringOrder

  type Byte = x: int | 0 <= x < 256

  type Token = p: Parts | IsToken(p) witness Parts(false, "0", None, None)

  /** A JSON value; numbers keep their token, strings their UTF-8 bytes, objects the order of their entries. */
  datatype Json =
    | Null
    | Boolean(flag: bool)
    | Numeral(parts: Token)
    | Text(bytes: seq<Byte>)
    | Array(items: seq<Json>)
    | Object(entries: seq<Member>)

  datatype Member = Member(key: seq<Byte>, value: Json)

  /** Trees of strings and arrays. */
  datatype Tree = Leaf(text: string) | Node(children: seq<Tree>)

  /** The keys of every object are distinct. */
  ghost predicate WellFormed(j: Json)
    decreases j
  {
    match j
    case Array(items) => forall i :: 0 <= i < |items| ==> WellFormed(items[i])
    case Object(entries) =>
      && (forall i :: 0 <= i < |entries| ==> WellFormed(entries[i].value))
      && (forall i, k :: 0 <= i < k < |entries| ==> entries[i].key != entries[k].key)
    case _ => true
  }

  // ----- hexadecimal keys

  function HexDigit(d: nat): char
    requires d < 16
  {
    if d < 10 then '0' + d as char else 'a' + (d - 10) as char
  }

  function HexLower(bytes: seq<Byte>): string {
    if bytes == [] then "" else [HexDigit(bytes[0] / 16), HexDigit(bytes[0] % 16)] + HexLower(bytes[1..])
  }

  const HEX := "0123456789abcdef"

  /** Two letters of the table for each byte, the upper half first. */
  lemma {:induction false} HexIsTwoDigits(bytes: seq<Byte>, k: nat)
    requires k < |bytes|
    ensures |HexLower(bytes)| == 2 * |bytes|
    ensures HexLower(bytes)[2 * k] == HEX[bytes[k] / 16] && HexLower(bytes)[2 * k + 1] == HEX[bytes[k] % 16]
  {
    HexDigitIs(bytes[0] / 16);
    HexDigitIs(bytes[0] % 16);
    if |bytes| > 1 {
      HexIsTwoDigits(bytes[1..], if k > 0 then k - 1 else 0);
    }
    hide HexDigit;
    assert HexLower(bytes) == [HexDigit(bytes[0] / 16), HexDigit(bytes[0] % 16)] + HexLower(bytes[1..]);
  }

  lemma HexDigitIs(d: nat)
    requires d < 16
    ensures HexDigit(d) == HEX[d]
  {
  }

  lemma {:induction false} HexInjective(a: seq<Byte>, b: seq<Byte>)
    requires HexLower(a) == HexLower(b)
    ensures a == b
  {
    if a == [] || b == [] {
      assert HexLower(a) == "" || HexLower(b) == "";
    } else {
      var s, t := HexLower(a), HexLower(b);
      assert s[0] == t[0] && s[1] == t[1];
      assert s[2..] == HexLower(a[1..]) && t[2..] == HexLower(b[1..]);
      HexInjective(a[1..], b[1..]);
      assert a == [a[0]] + a[1..] && b == [b[0]] + b[1..];
    }
  }

  // ----- sorting by key

  type Entry = (string, Tree)

  ghost predicate SortedByKey(e: seq<Entry>) {
    forall i, j :: 0 <= i < j < |e| ==> Less(e[i].0, e[j].0)
  }

  ghost predicate DistinctKeys(e: seq<Entry>) {
    forall i, j :: 0 <= i < j < |e| ==> e[i].0 != e[j].0
  }

  function InsertByKey(e: seq<Entry>, x: Entry): seq<Entry> {
    if e == [] || Less(x.0, e[0].0) then [x] + e else [e[0]] + InsertByKey(e[1..], x)
  }

  /** `sort_by` key. */
  function SortByKey(e: seq<Entry>): seq<Entry> {
    if e == [] then [] else InsertByKey(SortByKey(e[..|e| - 1]), e[|e| - 1])
  }

  lemma {:induction false} InsertSorts(e: seq<Entry>, x: Entry)
    requires SortedByKey(e) && forall i :: 0 <= i < |e| ==> e[i].0 != x.0
    ensures SortedByKey(InsertByKey(e, x))
    ensures forall y :: y in InsertByKey(e, x) <==> y in e || y == x
  {
    if e == [] {
    } else if Less(x.0, e[0].0) {
      forall i | 1 <= i < |e|
        ensures Less(x.0, e[i].0)
      {
        LessTransitive(x.0, e[0].0, e[i].0);
      }
    } else {
      var rest := InsertByKey(e[1..], x);
      InsertSorts(e[1..], x);
      LessTotal(x.0, e[0].0);
      assert forall y :: y in rest ==> Less(e[0].0, y.0);
      assert e == [e[0]] + e[1..];
    }
  }

  lemma {:induction false} SortSorts(e: seq<Entry>)
    requires DistinctKeys(e)
    ensures SortedByKey(SortByKey(e))
    ensures forall y :: y in SortByKey(e) <==> y in e
  {
    if e != [] {
      var n := |e| - 1;
      SortSorts(e[..n]);
      var before := SortByKey(e[..n]);
      forall i | 0 <= i < |before|
        ensures before[i].0 != e[n].0
      {
        assert before[i] in e[..n];
      }
      InsertSorts(before, e[n]);
      assert e == e[..n] + [e[n]];
    }
  }

  lemma HeadOnce(e: seq<Entry>, y: Entry)
    requires SortedByKey(e) && e != []
    ensures y in e[1..] <==> y in e && y != e[0]
  {
    LessTotal(e[0].0, e[0].0);
    assert e == [e[0]] + e[1..];
  }

  lemma HasElement(e: seq<Entry>)
    requires e != []
    ensures exists y :: y in e
  {
    assert e[0] in e;
  }

  /** A strictly sorted sequence is determined by its elements. */
  lemma {:induction false} SortedUnique(a: seq<Entry>, b: seq<Entry>)
    requires SortedByKey(a) && SortedByKey(b) && forall y :: y in a <==> y in b
    ensures a == b
  {
    if a == [] {
      if b != [] {
        HasElement(b);
      }
    } else {
      assert a[0] in b && b[0] in a;
      LessTotal(a[0].0, b[0].0);
      assert a[0] == b[0];
      assert a == [a[0]] + a[1..] && b == [b[0]] + b[1..];
      forall y
        ensures y in a[1..] <==> y in b[1..]
      {
        HeadOnce(a, y);
        HeadOnce(b, y);
      }
      SortedUnique(a[1..], b[1..]);
    }
  }

  // ----- numbers

  /** A token without fraction and exponent whose value a 64-bit integer holds, signed or unsigned. */
  predicate IsInteger(p: Token) {
    p.fraction.None? && p.exponent.None? && -0x8000_0000_0000_0000 <= IntegerValue(p) <= 0xFFFF_FFFF_FFFF_FFFF
  }

  function IntegerValue(p: Token): int {
    if p.negative then 0 - Number(p.whole) else Number(p.whole)
  }

  /** `as_i64` or else `as_u64`: they parse the token. */
  function AsInteger(token: string): Option<int> {
    var v := ParseInt(token);
    if v.Some? && -0x8000_0000_0000_0000 <= v.value <= 0xFFFF_FFFF_FFFF_FFFF then v else None
  }

  lemma AsIntegerParses(p: Token)
    ensures AsInteger(Spelling(p)) == if IsInteger(p) then Some(IntegerValue(p)) else None
  {
    hide Number;
    if p.fraction.None? && p.exponent.None? {
      assert Spelling(p) == Sign(p.negative) + p.whole;
      assert p.negative ==> Spelling(p)[1..] == p.whole;
      assert !p.negative ==> Spelling(p) == p.whole && IsDigit(p.whole[0]);
    } else {
      MarkSpoils(p);
    }
  }

  // A fraction point or an exponent mark is not a digit.
  lemma MarkSpoils(p: Token)
    requires p.fraction.Some? || p.exponent.Some?
    ensures ParseInt(Spelling(p)).None?
  {
    hide Number;
    var s := Spelling(p);
    var body := s[|Sign(p.negative)|..];
    assert body == Mantissa(p) + (if p.exponent.Some? then ExponentText(p.exponent.value) else "");
    MantissaDigits(p);
    assert body[0] == Mantissa(p)[0];
    if p.fraction.Some? {
      assert Mantissa(p)[|p.whole|] == '.';
      assert body[|p.whole|] == '.';
    } else {
      assert body[|Mantissa(p)|] == ExponentText(p.exponent.value)[0];
    }
    assert !AreDigits(body);
  }

  // ----- what a value means

  /** A JSON value without spelling and order: numbers are numbers, integers apart from decimals, objects are maps. */
  datatype Value =
    | VNull
    | VBoolean(flag: bool)
    | VInteger(integer: int)
    | VDecimal(rational: real)
    | VText(bytes: seq<Byte>)
    | VArray(items: seq<Value>)
    | VObject(members: map<seq<Byte>, Value>)

  /** sign * coefficient * 10^scale */
  function RationalValue(p: Token): real {
    var magnitude := Magnitude(Coefficient(p), Scale(p));
    if p.negative then -magnitude else magnitude
  }

  function Magnitude(c: nat, scale: int): real {
    if scale >= 0 then (c * Pow10(scale)) as real
    else
      Pow10Adds(-scale, 0);
      c as real / Pow10(-scale) as real
  }

  function Meaning(j: Json): Value
    decreases j, 0
  {
    match j
    case Null => VNull
    case Boolean(flag) => VBoolean(flag)
    case Numeral(parts) => NumberMeaning(parts)
    case Text(bytes) => VText(bytes)
    case Array(items) => VArray(seq(|items|, i requires 0 <= i < |items| => Meaning(items[i])))
    case Object(entries) => VObject(Members(entries))
  }

  function NumberMeaning(p: Token): Value {
    if IsInteger(p) then VInteger(IntegerValue(p)) else VDecimal(RationalValue(p))
  }

  function Members(entries: seq<Member>): map<seq<Byte>, Value>
    decreases entries, 1
  {
    if entries == [] then map[]
    else
      var last := entries[|entries| - 1];
      Members(entries[..|entries| - 1])[last.key := Meaning(last.value)]
  }

  // ----- the tree

  function Typed(j: Json): Tree
    decreases j
  {
    match j
    case Null => Node([Leaf("null")])
    case Boolean(flag) => Node([Leaf("boolean"), Leaf(if flag then "1" else "0")])
    case Numeral(parts) => TypedNumber(parts)
    case Text(bytes) => Node([Leaf("utf8"), Leaf(HexLower(bytes))])
    case Array(items) => Node([Leaf("array"), Node(seq(|items|, i requires 0 <= i < |items| => Typed(items[i])))])
    case Object(entries) =>
      var typed := seq(|entries|, i requires 0 <= i < |entries| => (HexLower(entries[i].key), Typed(entries[i].value)));
      Node([Leaf("object"), Node(EntryNodes(SortByKey(typed)))])
  }

  function TypedNumber(parts: Token): Tree {
    var token := Spelling(parts);
    var v := AsInteger(token);
    if v.Some? then Node([Leaf("integer"), Leaf(IntText(v.value))])
    else
      NormalizedFloatIsExact(parts, parts);
      Node([Leaf("decimal"), Leaf(NormalizedFloat(token).value)])
  }

  function EntryNodes(e: seq<Entry>): seq<Tree> {
    seq(|e|, i requires 0 <= i < |e| => Node([Leaf(e[i].0), e[i].1]))
  }

  lemma MagnitudeAt(c: nat, scale: int, k: nat)
    requires scale + k >= 0
    ensures Magnitude(c, scale) * Pow10(k) as real == (c * Pow10(scale + k)) as real
    ensures Pow10(k) > 0
  {
    hide Pow10;
    Pow10Adds(k, 0);
    if scale >= 0 {
      Pow10Adds(scale, k);
      Regroup(c, Pow10(scale), Pow10(k));
      ProductOfReals(c * Pow10(scale), Pow10(k));
    } else {
      var d, up := Pow10(-scale), Pow10(scale + k);
      Pow10Adds(-scale, 0);
      Pow10Adds(-scale, scale + k);
      ProductOfReals(d, up);
      ProductOfReals(c, up);
      Quotient(c as real, d as real, up as real);
    }
  }

  lemma ProductOfReals(a: nat, b: nat)
    ensures (a * b) as real == a as real * b as real
  {
  }

  lemma Quotient(c: real, d: real, up: real)
    requires d > 0.0
    ensures c / d * (d * up) == c * up
  {
    assert c / d * d == c;
  }

  function Raised(r: real, k: nat): real {
    r * Pow10(k) as real
  }

  lemma MagnitudesAgree(a: nat, d: int, b: nat, e: int)
    ensures Magnitude(a, d) == Magnitude(b, e) <==> SameMagnitude(a, d, b, e)
  {
    hide *;
    var k := (if d < 0 then -d else 0) + (if e < 0 then -e else 0);
    var x := RaisedIs(a, d, k);
    var y := RaisedIs(b, e, k);
    AtOneScale(a, d, b, e, k, x, y);
    CancelRaised(Magnitude(a, d), Magnitude(b, e), k);
    IntAsReal(x, y);
  }

  lemma RaisedIs(c: nat, scale: int, k: nat) returns (x: nat)
    requires scale + k >= 0
    ensures x == c * Pow10(scale + k) && Raised(Magnitude(c, scale), k) == x as real
  {
    hide Pow10, Magnitude;
    MagnitudeAt(c, scale, k);
    x := c * Pow10(scale + k);
  }

  lemma AtOneScale(a: nat, d: int, b: nat, e: int, k: int, x: nat, y: nat)
    requires k >= 0 && d + k >= 0 && e + k >= 0 && x == a * Pow10(d + k) && y == b * Pow10(e + k)
    ensures SameMagnitude(a, d, b, e) <==> x == y
  {
    hide Pow10, SameMagnitude;
    SameMagnitudeScaled(a, d, b, e, -k, -k);
    OneScale(x, y, -k);
  }

  lemma CancelRaised(x: real, y: real, k: nat)
    ensures Raised(x, k) == Raised(y, k) <==> x == y
  {
    MagnitudeAt(0, 0, k);
    var up := Pow10(k) as real;
    hide Pow10;
    assert up > 0.0;
    assert Raised(x, k) == x * up;
    assert Raised(y, k) == y * up;
    CancelReal(x, y, up);
  }

  lemma OneScale(x: nat, y: nat, scale: int)
    ensures SameMagnitude(x, scale, y, scale) <==> x == y
  {
    assert Pow10(0) == 1;
  }

  lemma IntAsReal(x: nat, y: nat)
    ensures x as real == y as real <==> x == y
  {
  }

  lemma CancelReal(x: real, y: real, k: real)
    requires k > 0.0
    ensures x * k == y * k <==> x == y
  {
  }

  lemma MagnitudeSign(c: nat, scale: int)
    ensures Magnitude(c, scale) >= 0.0 && (Magnitude(c, scale) == 0.0 <==> c == 0)
  {
    var k := if scale < 0 then -scale else 0;
    MagnitudeAt(c, scale, k);
    Pow10Adds(scale + k, 0);
    CancelFactor(c, 0, Pow10(scale + k));
    var m, p := Magnitude(c, scale), Pow10(k) as real;
    hide Magnitude, Pow10;
    assert m < 0.0 ==> m * p < 0.0;
  }

  lemma RationalsAgree(p: Token, q: Token)
    ensures RationalValue(p) == RationalValue(q) <==> SameRational(p, q)
  {
    MagnitudesAgree(Coefficient(p), Scale(p), Coefficient(q), Scale(q));
    MagnitudeSign(Coefficient(p), Scale(p));
    MagnitudeSign(Coefficient(q), Scale(q));
    hide Magnitude, SameMagnitude, Coefficient, Scale;
  }

  lemma NumberIsExact(p: Token, q: Token)
    ensures TypedNumber(p) == TypedNumber(q) <==> NumberMeaning(p) == NumberMeaning(q)
  {
    AsIntegerParses(p);
    AsIntegerParses(q);
    NormalizedFloatIsExact(p, q);
    NormalizedFloatIsExact(q, p);
    RationalsAgree(p, q);
    hide NormalizedFloat, Spelling, AsInteger, IsInteger, IntegerValue, SameRational, RationalValue;
    var s, t := TypedNumber(p).children, TypedNumber(q).children;
    if IsInteger(p) && IsInteger(q) {
      if s == t {
        assert s[1] == t[1];
        IntTextInjective(IntegerValue(p), IntegerValue(q));
      }
    } else if IsInteger(p) || IsInteger(q) {
      assert s[0] != t[0];
    } else {
      assert s == t <==> s[1] == t[1];
    }
  }

  /** The entries of an object as sorted pairs. */
  function TypedEntries(entries: seq<Member>): seq<Entry> {
    seq(|entries|, i requires 0 <= i < |entries| => (HexLower(entries[i].key), Typed(entries[i].value)))
  }

  lemma TypedObject(j: Json)
    requires WellFormed(j) && j.Object?
    ensures Typed(j) == Node([Leaf("object"), Node(EntryNodes(SortByKey(TypedEntries(j.entries))))])
    ensures DistinctKeys(TypedEntries(j.entries))
  {
    var e := j.entries;
    assert TypedEntries(e) == seq(|e|, i requires 0 <= i < |e| => (HexLower(e[i].key), Typed(e[i].value)));
    forall i, k | 0 <= i < k < |e|
      ensures HexLower(e[i].key) != HexLower(e[k].key)
    {
      if HexLower(e[i].key) == HexLower(e[k].key) {
        HexInjective(e[i].key, e[k].key);
      }
    }
  }

  lemma EntryNodesInjective(a: seq<Entry>, b: seq<Entry>)
    requires EntryNodes(a) == EntryNodes(b)
    ensures a == b
  {
    assert |EntryNodes(a)| == |a| && |EntryNodes(b)| == |b|;
    forall i | 0 <= i < |a|
      ensures a[i] == b[i]
    {
      assert EntryNodes(a)[i] == EntryNodes(b)[i];
      assert EntryNodes(a)[i].children[0] == EntryNodes(b)[i].children[0];
      assert EntryNodes(a)[i].children[1] == EntryNodes(b)[i].children[1];
    }
  }

  /** The canonical tree is exact: two values have the same tree exactly when they mean the same, that is, when they
      are equal up to the order of object keys and the spelling of numbers. */
  lemma {:induction false} TypedIsExact(a: Json, b: Json)
    requires WellFormed(a) && WellFormed(b)
    ensures Typed(a) == Typed(b) <==> Meaning(a) == Meaning(b)
    decreases a
  {
    if a.Numeral? && b.Numeral? {
      NumberIsExact(a.parts, b.parts);
    } else if a.Text? && b.Text? {
      TextIsExact(a.bytes, b.bytes);
    } else if a.Array? && b.Array? {
      forall i | 0 <= i < |a.items| && i < |b.items|
        ensures Typed(a.items[i]) == Typed(b.items[i]) <==> Meaning(a.items[i]) == Meaning(b.items[i])
      {
        TypedIsExact(a.items[i], b.items[i]);
      }
      ArrayIsExact(a, b);
    } else if a.Object? && b.Object? {
      forall i, k | 0 <= i < |a.entries| && 0 <= k < |b.entries|
        ensures Typed(a.entries[i].value) == Typed(b.entries[k].value) <==>
          Meaning(a.entries[i].value) == Meaning(b.entries[k].value)
      {
        TypedIsExact(a.entries[i].value, b.entries[k].value);
      }
      ObjectIsExact(a, b);
      PairwiseIsExact(a, b);
    } else {
      LabelsDiffer(a, b);
    }
  }

  lemma TextIsExact(s: seq<Byte>, t: seq<Byte>)
    ensures Typed(Text(s)) == Typed(Text(t)) <==> s == t
  {
    if Typed(Text(s)) == Typed(Text(t)) {
      assert Typed(Text(s)).children[1] == Typed(Text(t)).children[1];
      HexInjective(s, t);
    }
  }

  lemma ArrayIsExact(a: Json, b: Json)
    requires a.Array? && b.Array?
    requires forall i :: 0 <= i < |a.items| && i < |b.items| ==>
        (Typed(a.items[i]) == Typed(b.items[i]) <==> Meaning(a.items[i]) == Meaning(b.items[i]))
    ensures Typed(a) == Typed(b) <==> Meaning(a) == Meaning(b)
  {
    var s, t := Typed(a).children, Typed(b).children;
    assert s[1].children == seq(|a.items|, i requires 0 <= i < |a.items| => Typed(a.items[i]));
    assert t[1].children == seq(|b.items|, i requires 0 <= i < |b.items| => Typed(b.items[i]));
    if Typed(a) == Typed(b) {
      assert s[1].children == t[1].children;
      forall i | 0 <= i < |a.items|
        ensures Typed(a.items[i]) == Typed(b.items[i])
      {
        assert s[1].children[i] == t[1].children[i];
      }
    }
    var m, n := Meaning(a).items, Meaning(b).items;
    assert m == seq(|a.items|, i requires 0 <= i < |a.items| => Meaning(a.items[i]));
    assert n == seq(|b.items|, i requires 0 <= i < |b.items| => Meaning(b.items[i]));
    if Meaning(a) == Meaning(b) {
      forall i | 0 <= i < |a.items|
        ensures Typed(a.items[i]) == Typed(b.items[i])
      {
        assert m[i] == n[i];
      }
      assert s[1].children == t[1].children;
    }
  }

  /** Some entry of the object has this key and this tree. */
  ghost predicate Finds(entries: seq<Member>, key: seq<Byte>, tree: Tree) {
    exists k :: 0 <= k < |entries| && entries[k].key == key && Typed(entries[k].value) == tree
  }

  ghost predicate Within(some: seq<Member>, others: seq<Member>) {
    forall i :: 0 <= i < |some| ==> Finds(others, some[i].key, Typed(some[i].value))
  }

  lemma FindsEntry(entries: seq<Member>, key: seq<Byte>, tree: Tree)
    ensures Finds(entries, key, tree) <==> (HexLower(key), tree) in TypedEntries(entries)
  {
    hide Typed, HexLower;
    var y := TypedEntries(entries);
    if k :| 0 <= k < |entries| && entries[k].key == key && Typed(entries[k].value) == tree {
      assert y[k] == (HexLower(key), tree);
    }
    if (HexLower(key), tree) in y {
      var k :| 0 <= k < |y| && y[k] == (HexLower(key), tree);
      HexInjective(entries[k].key, key);
    }
  }

  lemma WithinEntries(some: seq<Member>, others: seq<Member>)
    ensures Within(some, others) <==> forall x :: x in TypedEntries(some) ==> x in TypedEntries(others)
  {
    hide Typed, HexLower, WellFormed, Finds;
    var x, y := TypedEntries(some), TypedEntries(others);
    forall i | 0 <= i < |some|
      ensures Finds(others, some[i].key, Typed(some[i].value)) <==> x[i] in y
    {
      FindsEntry(others, some[i].key, Typed(some[i].value));
    }
  }

  // Two objects have one tree exactly when each one's entries are found in the other.
  lemma ObjectIsExact(a: Json, b: Json)
    requires WellFormed(a) && WellFormed(b) && a.Object? && b.Object?
    ensures Typed(a) == Typed(b) <==> Within(a.entries, b.entries) && Within(b.entries, a.entries)
  {
    var x, y := TypedEntries(a.entries), TypedEntries(b.entries);
    TypedObject(a);
    TypedObject(b);
    hide *;
    WithinEntries(a.entries, b.entries);
    WithinEntries(b.entries, a.entries);
    SortSorts(x);
    SortSorts(y);
    if Typed(a) == Typed(b) {
      assert Typed(a).children[1] == Typed(b).children[1];
      EntryNodesInjective(SortByKey(x), SortByKey(y));
    } else if forall e :: e in x <==> e in y {
      SortedUnique(SortByKey(x), SortByKey(y));
    }
  }

  ghost predicate FindsMeaning(entries: seq<Member>, key: seq<Byte>, value: Value) {
    exists k :: 0 <= k < |entries| && entries[k].key == key && Meaning(entries[k].value) == value
  }

  ghost predicate DistinctNames(entries: seq<Member>) {
    forall i, k :: 0 <= i < k < |entries| ==> entries[i].key != entries[k].key
  }

  lemma {:induction false} MembersFind(entries: seq<Member>, key: seq<Byte>, value: Value)
    requires DistinctNames(entries)
    ensures key in Members(entries) && Members(entries)[key] == value <==> FindsMeaning(entries, key, value)
  {
    if entries != [] {
      var n := |entries| - 1;
      var rest, last := entries[..n], entries[n];
      MembersFind(rest, key, value);
      hide Meaning;
      if key == last.key {
        assert FindsMeaning(entries, key, Meaning(last.value));
      } else if k :| 0 <= k < |entries| && entries[k].key == key && Meaning(entries[k].value) == value {
        assert rest[k] == entries[k];
      }
      if FindsMeaning(rest, key, value) {
        var k :| 0 <= k < n && rest[k].key == key && Meaning(rest[k].value) == value;
        assert entries[k] == rest[k];
      }
    }
  }

  // Given exactness for all pairs of entry values, the same holds of whole objects.
  lemma PairwiseIsExact(a: Json, b: Json)
    requires a.Object? && b.Object? && DistinctNames(a.entries) && DistinctNames(b.entries)
    requires forall i, k :: 0 <= i < |a.entries| && 0 <= k < |b.entries| ==>
        (Typed(a.entries[i].value) == Typed(b.entries[k].value) <==>
         Meaning(a.entries[i].value) == Meaning(b.entries[k].value))
    ensures Meaning(a) == Meaning(b) <==> Within(a.entries, b.entries) && Within(b.entries, a.entries)
  {
    var x, y := a.entries, b.entries;
    MembersWithin(x, y);
    forall k, i | 0 <= k < |y| && 0 <= i < |x|
      ensures Typed(y[k].value) == Typed(x[i].value) <==> Meaning(y[k].value) == Meaning(x[i].value)
    {
      assert Typed(a.entries[i].value) == Typed(b.entries[k].value) <==>
        Meaning(a.entries[i].value) == Meaning(b.entries[k].value);
    }
    MembersWithin(y, x);
    hide Typed, Within, Members;
  }

  ghost predicate SubMap(m: map<seq<Byte>, Value>, n: map<seq<Byte>, Value>) {
    forall key :: key in m ==> key in n && n[key] == m[key]
  }

  lemma MembersWithin(x: seq<Member>, y: seq<Member>)
    requires DistinctNames(x) && DistinctNames(y)
    requires forall i, k :: 0 <= i < |x| && 0 <= k < |y| ==>
        (Typed(x[i].value) == Typed(y[k].value) <==> Meaning(x[i].value) == Meaning(y[k].value))
    ensures SubMap(Members(x), Members(y)) <==> Within(x, y)
  {
    hide Typed, Meaning, Members;
    forall i | 0 <= i < |x|
      ensures x[i].key in Members(x) && Members(x)[x[i].key] == Meaning(x[i].value)
      ensures x[i].key in Members(y) && Members(y)[x[i].key] == Meaning(x[i].value) <==>
        Finds(y, x[i].key, Typed(x[i].value))
    {
      assert FindsMeaning(x, x[i].key, Meaning(x[i].value));
      MembersFind(x, x[i].key, Meaning(x[i].value));
      MembersFind(y, x[i].key, Meaning(x[i].value));
      SameFind(x[i], y);
    }
    forall key | key in Members(x)
      ensures exists i :: 0 <= i < |x| && x[i].key == key && Meaning(x[i].value) == Members(x)[key]
    {
      MembersFind(x, key, Members(x)[key]);
    }
  }

  lemma SameFind(e: Member, y: seq<Member>)
    requires forall k :: 0 <= k < |y| ==>
      (Typed(e.value) == Typed(y[k].value) <==> Meaning(e.value) == Meaning(y[k].value))
    ensures Finds(y, e.key, Typed(e.value)) <==> FindsMeaning(y, e.key, Meaning(e.value))
  {
    hide Typed, Meaning;
  }

  function Label(j: Json): string {
    var t := Typed(j);
    if t.Node? && t.children != [] && t.children[0].Leaf? then t.children[0].text else ""
  }

  lemma LabelsDiffer(a: Json, b: Json)
    requires !(a.Numeral? && b.Numeral?) && !(a.Text? && b.Text?) && !(a.Array? && b.Array?)
      && !(a.Object? && b.Object?)
    ensures Typed(a) == Typed(b) <==> Meaning(a) == Meaning(b)
  {
    LabelOf(a);
    LabelOf(b);
    if a.Boolean? && b.Boolean? {
      assert Typed(a).children[1] == Leaf(if a.flag then "1" else "0");
      assert Typed(b).children[1] == Leaf(if b.flag then "1" else "0");
      assert "1"[0] != "0"[0];
    }
  }

  lemma LabelOf(j: Json)
    ensures var name := Label(j);
            && name != ""
            && name[0] == match j
                 case Null => 'n' case Boolean(_) => 'b' case Text(_) => 'u' case Array(_) => 'a' case Object(_) => 'o'
                 case Numeral(p) => if IsInteger(p) then 'i' else 'd'
  {
    if j.Numeral? {
      AsIntegerParses(j.parts);
      hide NormalizedFloat, Spelling, AsInteger, IsInteger, IntegerValue;
    }
  }
}
