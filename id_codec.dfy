/**
 * The persisted ordering of a lineup: one string of post IDs joined by ','.
 * The editor writes it with `ids.join(',')`; the plugin reads it back with
 * `array_map('intval', explode(',', $post_ids))`.
 */
module IdCodec {

  // ---------------------------------------------------------------------------
  // explode(',', s) and Array.prototype.join(',')
  // ---------------------------------------------------------------------------

  /** The fragments of `s` between commas, as PHP's `explode(',', s)` returns them. */
  function Explode(s: string): (r: seq<string>)
    ensures |r| == multiset(s)[','] + 1
    ensures forall i :: 0 <= i < |r| ==> ',' !in r[i]
  {
    if s == [] then [""]
    else
      var rest := Explode(s[1..]);
      assert s == [s[0]] + s[1..];
      if s[0] == ',' then [""] + rest
      else [[s[0]] + rest[0]] + rest[1..]
  }

  /** The fragments joined with ',' between neighbours, as JavaScript's `parts.join(',')`. */
  function Join(parts: seq<string>): (r: string)
    ensures |parts| > 0 ==> parts[0] <= r
  {
    if |parts| == 0 then ""
    else if |parts| == 1 then parts[0]
    else parts[0] + "," + Join(parts[1..])
  }

  /** Joining the fragments of a string gives the string back. */
  lemma {:induction false} JoinExplode(s: string)
    ensures Join(Explode(s)) == s
    decreases |s|
  {
    if ',' !in s {
      ExplodeNoComma(s);
    } else {
      var k := FirstComma(s);
      var head, tail := s[..k], s[k + 1..];
      assert s == head + "," + tail;
      ExplodeConcat(head, tail);
      JoinExplode(tail);
      JoinCons(head, Explode(tail));
    }
  }

  /** The position of the first ',' in `s`. */
  function FirstComma(s: string): (k: nat)
    requires ',' in s
    ensures k < |s| && s[k] == ',' && ',' !in s[..k]
  {
    if s[0] == ',' then 0
    else
      assert ',' in s[1..] by { assert s == [s[0]] + s[1..]; }
      var k := FirstComma(s[1..]) + 1;
      assert s[..k] == [s[0]] + s[1..][..k - 1];
      k
  }

  lemma JoinCons(head: string, tail: seq<string>)
    requires |tail| > 0
    ensures Join([head] + tail) == head + "," + Join(tail)
  {
    assert ([head] + tail)[1..] == tail;
  }

  /** Splitting the comma-join of comma-free fragments gives the fragments back. */
  lemma {:induction false} ExplodeJoin(parts: seq<string>)
    requires |parts| > 0
    requires forall i :: 0 <= i < |parts| ==> ',' !in parts[i]
    ensures Explode(Join(parts)) == parts
  {
    if |parts| == 1 {
      ExplodeNoComma(parts[0]);
    } else {
      ExplodeJoin(parts[1..]);
      ExplodeConcat(parts[0], Join(parts[1..]));
    }
  }

  /** A string without commas is a single fragment. */
  lemma {:induction false} ExplodeNoComma(s: string)
    requires ',' !in s
    ensures Explode(s) == [s]
  {
    if s != [] {
      assert s == [s[0]] + s[1..];
      assert ',' !in s[1..];
      ExplodeNoComma(s[1..]);
    }
  }

  /** A comma-free head followed by ',' contributes exactly one fragment. */
  lemma {:induction false} ExplodeConcat(head: string, tail: string)
    requires ',' !in head
    ensures Explode(head + "," + tail) == [head] + Explode(tail)
  {
    if head == [] {
      assert head + "," + tail == [','] + tail;
      assert ([','] + tail)[1..] == tail;
    } else {
      assert head == [head[0]] + head[1..];
      assert ',' !in head[1..];
      ExplodeConcat(head[1..], tail);
      assert (head + "," + tail)[1..] == head[1..] + "," + tail;
      assert (head + "," + tail)[0] == head[0] != ',';
    }
  }

  // ---------------------------------------------------------------------------
  // intval, restricted to what the plugin feeds it
  // ---------------------------------------------------------------------------

  predicate IsDigit(c: char)
  {
    '0' <= c <= '9'
  }

  function DigitValue(c: char): nat
    requires IsDigit(c)
  {
    (c as int) - ('0' as int)
  }

  function DigitChar(d: nat): (c: char)
    requires d < 10
    ensures IsDigit(c) && DigitValue(c) == d
  {
    ('0' as int + d) as char
  }

  /** The longest prefix of `s` made of decimal digits. */
  function DigitPrefix(s: string): (p: string)
    ensures |p| <= |s| && p == s[..|p|]
    ensures forall i :: 0 <= i < |p| ==> IsDigit(p[i])
    ensures |p| < |s| ==> !IsDigit(s[|p|])
  {
    if s == [] || !IsDigit(s[0]) then ""
    else [s[0]] + DigitPrefix(s[1..])
  }

  /** The value of a string of decimal digits, most significant first. */
  function DigitsValue(d: string): nat
    requires forall i :: 0 <= i < |d| ==> IsDigit(d[i])
  {
    if d == [] then 0
    else DigitsValue(d[..|d| - 1]) * 10 + DigitValue(d[|d| - 1])
  }

  /**
   * PHP's `intval` on a fragment of the stored ID string: the value of its
   * leading decimal digits, and 0 when it does not start with a digit.
   */
  function IntVal(s: string): (n: nat)
    ensures s == [] || !IsDigit(s[0]) ==> n == 0
  {
    DigitsValue(DigitPrefix(s))
  }

  /** The decimal rendering of `n` that JavaScript's join gives a numeric ID. */
  function NatToString(n: nat): (s: string)
    ensures |s| > 0
    ensures forall i :: 0 <= i < |s| ==> IsDigit(s[i])
  {
    if n < 10 then [DigitChar(n)]
    else NatToString(n / 10) + [DigitChar(n % 10)]
  }

  /** Reading back the decimal rendering of an ID gives the ID. */
  lemma {:induction false} IntValNatToString(n: nat)
    ensures IntVal(NatToString(n)) == n
  {
    var s := NatToString(n);
    AllDigitsPrefix(s);
    DigitsValueNatToString(n);
  }

  lemma {:induction false} DigitsValueNatToString(n: nat)
    ensures DigitsValue(NatToString(n)) == n
  {
    if n >= 10 {
      DigitsValueNatToString(n / 10);
      var s := NatToString(n);
      assert s[..|s| - 1] == NatToString(n / 10);
    }
  }

  lemma {:induction false} AllDigitsPrefix(s: string)
    requires forall i :: 0 <= i < |s| ==> IsDigit(s[i])
    ensures DigitPrefix(s) == s
  {
    if s != [] {
      AllDigitsPrefix(s[1..]);
    }
  }

  // ---------------------------------------------------------------------------
  // The ID list: parse (PHP side) and serialize (JavaScript side)
  // ---------------------------------------------------------------------------

  /** `array_map('intval', explode(',', s))`. */
  function ParseIds(s: string): (ids: seq<nat>)
    ensures |ids| == multiset(s)[','] + 1
    ensures forall i :: 0 <= i < |ids| ==> ids[i] == IntVal(Explode(s)[i])
  {
    var parts := Explode(s);
    seq(|parts|, i requires 0 <= i < |parts| => IntVal(parts[i]))
  }

  /** The decimal renderings of the IDs, in list order (what `serialize` pushes). */
  function IdStrings(ids: seq<nat>): (parts: seq<string>)
    ensures |parts| == |ids|
  {
    if ids == [] then []
    else IdStrings(ids[..|ids| - 1]) + [NatToString(ids[|ids| - 1])]
  }

  lemma {:induction false} IdStringsAt(ids: seq<nat>, i: nat)
    requires i < |ids|
    ensures IdStrings(ids)[i] == NatToString(ids[i])
  {
    if i < |ids| - 1 {
      IdStringsAt(ids[..|ids| - 1], i);
    }
  }

  /**
   * The stored form of an ordered ID list: the IDs joined by ','. It is "" exactly
   * for the empty list, and otherwise has one comma fewer than the list has IDs.
   */
  function SerializeIds(ids: seq<nat>): (r: string)
    ensures ids == [] <==> r == ""
    ensures ids != [] ==> multiset(r)[','] == |ids| - 1
  {
    var r := Join(IdStrings(ids));
    if ids == [] then r
    else
      IdStringsNoComma(ids);
      ExplodeJoin(IdStrings(ids));
      assert |IdStrings(ids)[0]| > 0 by { IdStringsAt(ids, 0); }
      assert |Explode(r)| == |ids|;
      r
  }

  lemma IdStringsNoComma(ids: seq<nat>)
    ensures forall i :: 0 <= i < |ids| ==> ',' !in IdStrings(ids)[i]
  {
    forall i | 0 <= i < |ids|
      ensures ',' !in IdStrings(ids)[i]
    {
      IdStringsAt(ids, i);
      var s := NatToString(ids[i]);
      assert forall k :: 0 <= k < |s| ==> s[k] != ',';
    }
  }

  /** Reading back a serialized non-empty ID list gives the same list, in the same order. */
  lemma {:induction false} ParseSerializeRoundTrip(ids: seq<nat>)
    requires ids != []
    ensures ParseIds(SerializeIds(ids)) == ids
  {
    IdStringsNoComma(ids);
    ExplodeJoin(IdStrings(ids));
    var r := ParseIds(SerializeIds(ids));
    forall i | 0 <= i < |ids|
      ensures r[i] == ids[i]
    {
      IdStringsAt(ids, i);
      IntValNatToString(ids[i]);
    }
  }

  /** The empty list serializes to "", which the parser would read as the single ID 0. */
  lemma EmptyListDoesNotRoundTrip()
    ensures SerializeIds([]) == ""
    ensures ParseIds("") == [0]
  {
    assert Explode("") == [""];
  }

  /** Three one-digit IDs are stored as their digits separated by commas. */
  lemma SerializeDigits(ids: seq<nat>, a: nat, b: nat, c: nat)
    requires ids == [a, b, c] && a < 10 && b < 10 && c < 10
    ensures SerializeIds(ids) == [DigitChar(a), ',', DigitChar(b), ',', DigitChar(c)]
  {
    var sa, sb, sc := [DigitChar(a)], [DigitChar(b)], [DigitChar(c)];
    var parts := IdStrings(ids);
    IdStringsAt(ids, 0);
    IdStringsAt(ids, 1);
    IdStringsAt(ids, 2);
    assert parts == [sa, sb, sc];
    JoinCons(sb, [sc]);
    assert parts == [sa] + [sb, sc];
    JoinCons(sa, [sb, sc]);
    assert [sb, sc] == [sb] + [sc];
  }

  /** The editor stores the list 5, 2, 9 as "5,2,9" and the list 5, 7, 9 as "5,7,9". */
  lemma SerializeExample()
    ensures SerializeIds([5, 2, 9]) == "5,2,9"
    ensures SerializeIds([5, 7, 9]) == "5,7,9"
  {
    SerializeDigits([5, 2, 9], 5, 2, 9);
    SerializeDigits([5, 7, 9], 5, 7, 9);
  }

  lemma ExampleFragments(stored: string)
    requires stored == "5,x,9"
    ensures Explode(stored) == ["5", "x", "9"]
  {
    var parts := ["5", "x", "9"];
    JoinCons("x", ["9"]);
    JoinCons("5", ["x", "9"]);
    assert parts == ["5"] + ["x", "9"];
    assert ["x", "9"] == ["x"] + ["9"];
    assert Join(parts) == stored;
    ExplodeJoin(parts);
  }

  /** A fragment that is not a number is read as 0 rather than rejected: "5,x,9" gives [5, 0, 9]. */
  lemma MalformedFragmentExample(stored: string)
    requires stored == "5,x,9"
    ensures ParseIds(stored) == [5, 0, 9]
  {
    ExampleFragments(stored);
    IntValNatToString(5);
    IntValNatToString(9);
    assert NatToString(5) == "5";
    assert NatToString(9) == "9";
    var r := ParseIds(stored);
    assert r[0] == 5 && r[1] == 0 && r[2] == 9;
  }
}
