/** The queue's element: an immutable pair of an integer priority and an item
    (`Priority.java`). */
module PriorityEntry {
  import opened Wrappers
  import opened Sequences

  /** A priority and its payload. Both fields are final in the source, so the
      entry is a value: the constructor stores them as given and the
      accessors `priority()` and `item()` return them. */
  datatype Priority<X> = Priority(priority: int, item: X)

  /** The argument of `equals(Object)`: either another entry or any object
      that is not a `Priority`. */
  datatype Object<X> = PriorityObject(entry: Priority<X>) | OtherObject

  /** `equals`: true for an entry with the same priority and an equal item;
      false for every object that is not an entry. The item's own `equals`
      is taken to be equality on `X`. */
  predicate Equals<X(==)>(p: Priority<X>, o: Object<X>): (b: bool)
    ensures b <==> o == PriorityObject(p)
  {
    match o
    case PriorityObject(q) => p.priority == q.priority && p.item == q.item
    case OtherObject => false
  }

  /** `equals` answers false for any argument that is not an entry. */
  lemma EqualsRejectsOtherObjects<X>(p: Priority<X>)
    ensures !Equals(p, OtherObject)
  {
  }

  /** `equals` is an equivalence on entries. */
  lemma EqualsIsEquivalence<X>(p: Priority<X>, q: Priority<X>, r: Priority<X>)
    ensures Equals(p, PriorityObject(p))
    ensures Equals(p, PriorityObject(q)) <==> Equals(q, PriorityObject(p))
    ensures Equals(p, PriorityObject(q)) && Equals(q, PriorityObject(r)) ==> Equals(p, PriorityObject(r))
  {
  }

  // ---- decimal rendering of the priority, as Java's string concatenation does

  predicate IsDigit(c: char)
  {
    '0' <= c <= '9'
  }

  predicate AllDigits(s: string)
  {
    forall i :: 0 <= i < |s| ==> IsDigit(s[i])
  }

  function DigitChar(d: nat): (c: char)
    requires d < 10
    ensures IsDigit(c) && c as int - '0' as int == d
  {
    ('0' as int + d) as char
  }

  /** Decimal digits of `n`, most significant first, without leading zeros. */
  function NatToDecimal(n: nat): (s: string)
    ensures |s| >= 1 && AllDigits(s)
    ensures n > 0 ==> s[0] != '0'
    ensures s[0] == '0' ==> s == "0"
  {
    if n < 10 then [DigitChar(n)] else NatToDecimal(n / 10) + [DigitChar(n % 10)]
  }

  /** The number a string of decimal digits denotes. */
  function DecimalValue(s: string): nat
    requires AllDigits(s)
  {
    if s == [] then 0
    else DecimalValue(s[..|s| - 1]) * 10 + (s[|s| - 1] as int - '0' as int)
  }

  /** Reading the digits back gives the number. */
  lemma {:induction false} DecimalRoundTrip(n: nat)
    ensures DecimalValue(NatToDecimal(n)) == n
  {
    if n >= 10 {
      var s := NatToDecimal(n);
      assert s[..|s| - 1] == NatToDecimal(n / 10);
      DecimalRoundTrip(n / 10);
    }
  }

  /** Java's decimal form of an int: a minus sign for negatives, then digits. */
  function IntToString(n: int): (s: string)
    ensures |s| >= 1 && (s[0] == '-' <==> n < 0)
    ensures ',' !in s
  {
    var s := if n < 0 then "-" + NatToDecimal(-n) else NatToDecimal(n);
    assert forall i :: 1 <= i < |s| ==> IsDigit(s[i]);
    assert IsDigit(s[0]) || s[0] == '-';
    s
  }

  /** Strings of the form `IntToString` produces. */
  predicate IsIntText(t: string)
  {
    if |t| >= 1 && t[0] == '-' then |t| >= 2 && AllDigits(t[1..]) else |t| >= 1 && AllDigits(t)
  }

  function ParseInt(t: string): int
    requires IsIntText(t)
  {
    if |t| >= 1 && t[0] == '-' then -(DecimalValue(t[1..]) as int) else DecimalValue(t)
  }

  /** Parsing the rendered int gives it back. */
  lemma IntRoundTrip(n: int)
    ensures IsIntText(IntToString(n)) && ParseInt(IntToString(n)) == n
  {
    var s := IntToString(n);
    if n < 0 {
      assert s[1..] == NatToDecimal(-n);
      DecimalRoundTrip(-n);
    } else {
      DecimalRoundTrip(n);
    }
  }

  /** `toString`: `"[" + priority + "," + item + "]"`, where `itemText` is the
      item's own `toString`. */
  function ToString<X>(p: Priority<X>, itemText: string): (s: string)
    ensures |s| >= 4 && s[0] == '[' && s[|s| - 1] == ']'
  {
    "[" + IntToString(p.priority) + "," + itemText + "]"
  }

  /** Reads a rendered entry back into its priority and the item's text: the
      priority runs up to the first comma. */
  function ParseRendered(s: string): Option<(int, string)>
  {
    if |s| < 2 || s[0] != '[' || s[|s| - 1] != ']' then None
    else
      var body := s[1..|s| - 1];
      var k := IndexOf(body, ',');
      if k == |body| || !IsIntText(body[..k]) then None
      else Some((ParseInt(body[..k]), body[k + 1..]))
  }

  /** The rendering loses nothing: priority and item text can be recovered,
      whatever the item's text contains. */
  lemma ToStringRoundTrip<X>(p: Priority<X>, itemText: string)
    ensures ParseRendered(ToString(p, itemText)) == Some((p.priority, itemText))
  {
    var digits := IntToString(p.priority);
    var s := ToString(p, itemText);
    var body := s[1..|s| - 1];
    assert body == digits + [','] + itemText;
    IndexOfAfterPrefix(digits, ',', itemText);
    assert body[..|digits|] == digits;
    assert body[|digits| + 1..] == itemText;
    IntRoundTrip(p.priority);
  }
}
