/**
 * The validation that a creation request body passes before it reaches the
 * store: the name rules (length 3..100 and a restricted character set), a
 * required due date, and optional status, priority and active flag.
 *
 * The validators run on JavaScript strings, which are UTF-16, and the name
 * pattern is matched code unit by code unit. The length rules are stated
 * here on code units; the validator library counts a surrogate pair as one
 * character and skips the variation selectors U+FE0E and U+FE0F, but every
 * one of those units fails the pattern, so the verdict is the same (see
 * `NameAcceptedIff`, where the length is the number of characters).
 */
module CreateTaskDto {
  import opened Wrappers
  import opened TaskEntity

  /** The UTF-16 code units of one character. */
  function Units(c: char): (u: seq<int>)
    ensures 1 <= |u| <= 2
    ensures |u| == 1 <==> c as int < 0x10000
    ensures |u| == 1 ==> u[0] == c as int
    ensures |u| == 2 ==> 0xD800 <= u[0] < 0xDC00
  {
    var n := c as int;
    if n < 0x10000 then [n]
    else [0xD800 + (n - 0x10000) / 0x400, 0xDC00 + (n - 0x10000) % 0x400]
  }

  /** A string as the code units JavaScript sees. */
  function Utf16(s: string): (u: seq<int>)
    ensures |s| <= |u| <= 2 * |s|
  {
    if s == [] then [] else Units(s[0]) + Utf16(s[1..])
  }

  /** The code units the JavaScript class `\s` matches. */
  predicate IsSpaceUnit(u: int) {
    u == 0x09 || u == 0x0A || u == 0x0B || u == 0x0C || u == 0x0D || u == 0x20
    || u == 0xA0 || u == 0x1680 || (0x2000 <= u <= 0x200A)
    || u == 0x2028 || u == 0x2029 || u == 0x202F || u == 0x205F
    || u == 0x3000 || u == 0xFEFF
  }

  /** The character class `[a-zA-Z0-9\s\-_]` on one code unit. */
  predicate InNameClass(u: int) {
    ('a' as int <= u <= 'z' as int) || ('A' as int <= u <= 'Z' as int)
    || ('0' as int <= u <= '9' as int) || IsSpaceUnit(u)
    || u == '-' as int || u == '_' as int
  }

  /** The pattern `^[a-zA-Z0-9\s\-_]+$`: one or more units, each in the class. */
  predicate MatchesNamePattern(u: seq<int>) {
    |u| >= 1 && InNameClass(u[0]) && (|u| == 1 || MatchesNamePattern(u[1..]))
  }

  /** A character the name rule allows. */
  predicate NameChar(c: char) {
    InNameClass(c as int)
  }

  /**
   * The four name validators together: a string, 3 to 100 units, matching the
   * pattern. The bound of 2 characters below is the code-unit minimum of 3 seen
   * in characters: one character is at most two code units.
   */
  predicate ValidName(name: string)
    ensures ValidName(name) ==> name != []
    ensures |name| < 2 || |name| > 100 ==> !ValidName(name)
  {
    var u := Utf16(name);
    3 <= |u| && |u| <= 100 && MatchesNamePattern(u)
  }

  lemma {:induction false} PatternMeansAllInClass(u: seq<int>)
    ensures MatchesNamePattern(u) <==> |u| >= 1 && forall i :: 0 <= i < |u| ==> InNameClass(u[i])
  {
    if |u| > 1 {
      PatternMeansAllInClass(u[1..]);
      assert forall i :: 1 <= i < |u| ==> u[i] == u[1..][i - 1];
    }
  }

  lemma {:induction false} Utf16OfNameChars(s: string)
    requires forall i :: 0 <= i < |s| ==> NameChar(s[i])
    ensures Utf16(s) == seq(|s|, i requires 0 <= i < |s| => s[i] as int)
  {
    if s != [] {
      Utf16OfNameChars(s[1..]);
    }
  }

  /** A character outside the allowed set leaves some unit of the string outside the class. */
  lemma {:induction false} Utf16HasBadUnit(s: string, k: int)
    requires 0 <= k < |s| && !NameChar(s[k])
    ensures exists j :: 0 <= j < |Utf16(s)| && !InNameClass(Utf16(s)[j])
  {
    var head := Units(s[0]);
    assert Utf16(s) == head + Utf16(s[1..]);
    if k == 0 {
      assert !InNameClass(Utf16(s)[0]);
    } else {
      Utf16HasBadUnit(s[1..], k - 1);
      var j :| 0 <= j < |Utf16(s[1..])| && !InNameClass(Utf16(s[1..])[j]);
      assert Utf16(s)[|head| + j] == Utf16(s[1..])[j];
    }
  }

  /**
   * A name is accepted exactly when it has 3 to 100 characters and every one is
   * a letter, a digit, a whitespace character, `-` or `_`; an accepted name is
   * never empty.
   */
  lemma NameAcceptedIff(name: string)
    ensures ValidName(name) <==>
      3 <= |name| <= 100 && forall i :: 0 <= i < |name| ==> NameChar(name[i])
    ensures ValidName(name) ==> name != []
  {
    PatternMeansAllInClass(Utf16(name));
    if forall i :: 0 <= i < |name| ==> NameChar(name[i]) {
      Utf16OfNameChars(name);
    } else {
      var k :| 0 <= k < |name| && !NameChar(name[k]);
      Utf16HasBadUnit(name, k);
    }
  }

  /** A property of the request body that failed validation. */
  datatype Field = NameField | DueDateField | StatusField | PriorityField | IsActiveField

  /** A JSON value of the request body (objects, arrays and null are not modelled). */
  datatype Value = Str(s: string) | Num(n: int) | Bool(b: bool)

  /** A creation request body as received; `None` is an omitted property. */
  datatype RawCreateTask = RawCreateTask(
    name: Option<Value>,
    dueDate: Option<Value>,
    status: Option<Value>,
    priority: Option<Value>,
    isActive: Option<Value>)

  /** A validated creation request. */
  datatype CreateTask = CreateTask(
    name: string,
    dueDate: string,
    status: Option<TaskStatus>,
    priority: Option<TaskPriority>,
    isActive: Option<bool>)

  predicate NameOk(v: Option<Value>) {
    v.Some? && v.value.Str? && ValidName(v.value.s)
  }

  /** `dueDate` is required and must be a string (its ISO-8601 shape is not checked here). */
  predicate DueDateOk(v: Option<Value>) {
    v.Some? && v.value.Str?
  }

  predicate StatusOk(v: Option<Value>) {
    v.None? || (v.value.Str? && ParseStatus(v.value.s).Some?)
  }

  predicate PriorityOk(v: Option<Value>) {
    v.None? || (v.value.Str? && ParsePriority(v.value.s).Some?)
  }

  predicate IsActiveOk(v: Option<Value>) {
    v.None? || v.value.Bool?
  }

  predicate FieldOk(raw: RawCreateTask, f: Field) {
    match f
    case NameField => NameOk(raw.name)
    case DueDateField => DueDateOk(raw.dueDate)
    case StatusField => StatusOk(raw.status)
    case PriorityField => PriorityOk(raw.priority)
    case IsActiveField => IsActiveOk(raw.isActive)
  }

  function Check(ok: bool, f: Field): seq<Field> {
    if ok then [] else [f]
  }

  /**
   * Validates a request body: either the typed request, or the properties that
   * failed, in declaration order.
   */
  function Validate(raw: RawCreateTask): (r: Result<CreateTask, seq<Field>>)
    ensures r.Success? <==> forall f: Field :: FieldOk(raw, f)
    ensures r.Failure? ==> r.error != [] && forall f: Field :: f in r.error <==> !FieldOk(raw, f)
    ensures raw.dueDate.None? ==> r.Failure?
    ensures r.Success? ==>
      && Some(Str(r.value.name)) == raw.name && ValidName(r.value.name)
      && Some(Str(r.value.dueDate)) == raw.dueDate
      && (raw.status.None? <==> r.value.status.None?)
      && (r.value.status.Some? ==> raw.status == Some(Str(StatusCode(r.value.status.value))))
      && (raw.priority.None? <==> r.value.priority.None?)
      && (r.value.priority.Some? ==> raw.priority == Some(Str(PriorityCode(r.value.priority.value))))
      && (raw.isActive.None? <==> r.value.isActive.None?)
      && (r.value.isActive.Some? ==> raw.isActive == Some(Bool(r.value.isActive.value)))
  {
    var errors := Check(NameOk(raw.name), NameField) + Check(DueDateOk(raw.dueDate), DueDateField)
      + Check(StatusOk(raw.status), StatusField) + Check(PriorityOk(raw.priority), PriorityField)
      + Check(IsActiveOk(raw.isActive), IsActiveField);
    if errors != [] then
      assert forall f: Field :: f in errors <==> !FieldOk(raw, f);
      assert !FieldOk(raw, errors[0]);
      Failure(errors)
    else
      var status := if raw.status.None? then None else ParseStatus(raw.status.value.s);
      var priority := if raw.priority.None? then None else ParsePriority(raw.priority.value.s);
      var isActive := if raw.isActive.None? then None else Some(raw.isActive.value.b);
      assert status.Some? ==> raw.status == Some(Str(StatusCode(status.value))) by {
        if status.Some? { StatusCodesExact(raw.status.value.s, status.value); }
      }
      assert priority.Some? ==> raw.priority == Some(Str(PriorityCode(priority.value))) by {
        if priority.Some? { PriorityCodesExact(raw.priority.value.s, priority.value); }
      }
      Success(CreateTask(raw.name.value.s, raw.dueDate.value.s, status, priority, isActive))
  }
}
