/** The errors the task store reports to its callers, with the HTTP status and message of each. */
module TaskErrors {

  datatype Error =
    | InvalidPage         // page < 1
    | InvalidLimit        // limit outside 1..100
    | InvalidId           // id < 1
    | InvalidTransition   // a done task given another status
    | DuplicateName       // the storage reported a unique violation on the name
    | NotFound(id: int)   // no row with this id

  /** The value of one decimal digit; any other character counts as 0. */
  function DigitValue(c: char): nat {
    if '0' <= c <= '9' then c as int - '0' as int else 0
  }

  /** The number a string of decimal digits denotes, most significant digit first. */
  function DigitsValue(s: string): nat {
    if s == [] then 0 else DigitsValue(s[..|s| - 1]) * 10 + DigitValue(s[|s| - 1])
  }

  /**
   * The decimal form of a natural number, as JavaScript's template literal
   * writes it: digits only, denoting `n`, with a leading zero only for zero.
   */
  function Decimal(n: nat): (r: string)
    ensures |r| >= 1 && forall i :: 0 <= i < |r| ==> '0' <= r[i] <= '9'
    ensures DigitsValue(r) == n
    ensures (r[0] == '0') == (n == 0)
    ensures |r| > 1 ==> r[0] != '0'
    decreases n
  {
    var d := [('0' as int + n % 10) as char];
    if n < 10 then d
    else
      var high := Decimal(n / 10);
      assert (high + d)[..|high + d| - 1] == high;
      high + d
  }

  /** The decimal form of `v * 10 + d`, for `v` at least 1, is that of `v` followed by `d`. */
  lemma DecimalAppend(v: nat, d: nat)
    requires v >= 1 && d < 10
    ensures Decimal(v * 10 + d) == Decimal(v) + [('0' as int + d) as char]
  {
    var n := v * 10 + d;
    assert n / 10 == v && n % 10 == d;
  }

  /** Appending a digit multiplies the value by ten and adds the digit. */
  lemma DigitsValueAppend(high: string, c: char)
    ensures DigitsValue(high + [c]) == DigitsValue(high) * 10 + DigitValue(c)
  {
    assert (high + [c])[..|high|] == high;
  }

  /** Every digit string without a superfluous leading zero is the decimal form of its value. */
  lemma {:induction false} DecimalOfDigits(s: string)
    requires |s| >= 1 && forall i :: 0 <= i < |s| ==> '0' <= s[i] <= '9'
    requires |s| > 1 ==> s[0] != '0'
    ensures Decimal(DigitsValue(s)) == s
  {
    var last := s[|s| - 1];
    var d := DigitValue(last);
    assert [('0' as int + d) as char] == [last];
    if |s| == 1 {
      assert [last] == s;
    } else {
      var high := s[..|s| - 1];
      DecimalOfDigits(high);
      var v := DigitsValue(high);
      assert v != 0 by { assert Decimal(v)[0] == s[0]; }
      assert s == high + [last];
      DigitsValueAppend(high, last);
      DecimalAppend(v, d);
    }
  }

  /** Not-found is answered with 404; every other error is a bad request, 400. */
  function HttpStatus(e: Error): (r: int)
    ensures r == 404 <==> e.NotFound?
    ensures r == 400 <==> !e.NotFound?
  {
    if e.NotFound? then 404 else 400
  }

  /** The message each exception carries; a not-found message names the id. */
  function Message(e: Error): (r: string)
    ensures e.NotFound? ==>
      |r| > 23 && r[..13] == "Task with ID " && r[|r| - 10..] == " not found"
    ensures e.NotFound? && e.id >= 0 ==> r[13..|r| - 10] == Decimal(e.id)
  {
    match e
    case InvalidPage => "Page number must be greater than 0"
    case InvalidLimit => "Limit must be between 1 and 100"
    case InvalidId => "Invalid task ID"
    case InvalidTransition => "Cannot change status of a completed task"
    case DuplicateName => "A task with this name already exists"
    case NotFound(id) =>
      "Task with ID " + (if id < 0 then "-" + Decimal(-id) else Decimal(id)) + " not found"
  }
}
