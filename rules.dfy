/** Field validation as the forms use it: each field carries a table of
    checks, a schema reports every failing check as an issue (field path,
    message) in declaration order, per-field feedback keeps the first
    message of a field, and the submit handlers fold the issues into a
    field-to-message map in which a later message overwrites an earlier one.

    Fields (`P`) and messages (`M`) are each schema's own enumerations; the
    words a message shows are given by that schema. A field whose error the
    handlers set to "" is a field absent from the map: every reader of the
    map (the message under an input, its red border, the disabled rule of
    the submit control) treats "" as no error. */
module Rules {
  import opened JsNumbers

  /** Checks on a string field, each with the message it reports. */
  datatype StringCheck<M> =
    | MinLength(bound: nat, message: M)
    | MaxLength(bound: nat, message: M)
    | IsbnPattern(message: M)  // the pattern /^[0-9-]{10,17}$/

  /** Checks on a number field, each with the message it reports. */
  datatype NumberCheck<M> =
    | AtLeast(bound: int, message: M)
    | AtMost(bound: int, message: M)

  /** The whole text is 10 to 17 characters, each a digit or a hyphen. */
  predicate IsbnShaped(s: string)
  {
    10 <= |s| <= 17 && forall i :: 0 <= i < |s| ==> IsDigit(s[i]) || s[i] == '-'
  }

  predicate StringPasses<M>(c: StringCheck<M>, s: string)
  {
    match c
    case MinLength(n, _) => |s| >= n
    case MaxLength(n, _) => |s| <= n
    case IsbnPattern(_) => IsbnShaped(s)
  }

  predicate NumberPasses<M>(c: NumberCheck<M>, n: int)
  {
    match c
    case AtLeast(b, _) => n >= b
    case AtMost(b, _) => n <= b
  }

  /** Every check of a string schema runs (a failing check does not stop
      the later ones); the result lists the message of each failing check,
      in declaration order. */
  function StringIssues<M>(checks: seq<StringCheck<M>>, s: string): (r: seq<M>)
    ensures |r| <= |checks|
    ensures r == [] <==> forall i :: 0 <= i < |checks| ==> StringPasses(checks[i], s)
  {
    if checks == [] then []
    else (if StringPasses(checks[0], s) then [] else [checks[0].message]) + StringIssues(checks[1..], s)
  }

  /** The number counterpart of `StringIssues`. */
  function NumberIssues<M>(checks: seq<NumberCheck<M>>, n: int): (r: seq<M>)
    ensures |r| <= |checks|
    ensures r == [] <==> forall i :: 0 <= i < |checks| ==> NumberPasses(checks[i], n)
  {
    if checks == [] then []
    else (if NumberPasses(checks[0], n) then [] else [checks[0].message]) + NumberIssues(checks[1..], n)
  }

  /** Each message a string field lists is that of one of its failing checks. */
  lemma {:induction false} StringIssuesListFailures<M>(checks: seq<StringCheck<M>>, s: string)
    ensures forall k :: 0 <= k < |StringIssues(checks, s)| ==>
      exists i :: 0 <= i < |checks| && !StringPasses(checks[i], s) && StringIssues(checks, s)[k] == checks[i].message
  {
    if checks != [] {
      var t := checks[1..];
      var r := StringIssues(checks, s);
      var rt := StringIssues(t, s);
      var h := if StringPasses(checks[0], s) then [] else [checks[0].message];
      assert r == h + rt;
      StringIssuesListFailures(t, s);
      forall k | 0 <= k < |r|
        ensures exists i :: 0 <= i < |checks| && !StringPasses(checks[i], s) && r[k] == checks[i].message
      {
        if k < |h| {
          assert !StringPasses(checks[0], s) && r[k] == checks[0].message;
        } else {
          assert r[k] == rt[k - |h|];
          var i :| 0 <= i < |t| && !StringPasses(t[i], s) && rt[k - |h|] == t[i].message;
          assert checks[i + 1] == t[i];
          assert !StringPasses(checks[i + 1], s) && r[k] == checks[i + 1].message;
        }
      }
    } else {
      assert |StringIssues(checks, s)| == 0;
    }
  }

  /** The message of every failing check of a string field is listed. */
  lemma {:induction false} StringIssuesListEveryFailure<M>(checks: seq<StringCheck<M>>, s: string)
    ensures forall i :: 0 <= i < |checks| && !StringPasses(checks[i], s) ==>
      exists k :: 0 <= k < |StringIssues(checks, s)| && StringIssues(checks, s)[k] == checks[i].message
  {
    if checks != [] {
      var t := checks[1..];
      var r := StringIssues(checks, s);
      var rt := StringIssues(t, s);
      var h := if StringPasses(checks[0], s) then [] else [checks[0].message];
      assert r == h + rt;
      StringIssuesListEveryFailure(t, s);
      forall i | 0 <= i < |checks| && !StringPasses(checks[i], s)
        ensures exists k :: 0 <= k < |r| && r[k] == checks[i].message
      {
        if i == 0 {
          assert 0 < |r| && r[0] == checks[0].message;
        } else {
          assert t[i - 1] == checks[i];
          var k :| 0 <= k < |rt| && rt[k] == t[i - 1].message;
          assert 0 <= k + |h| < |r| && r[k + |h|] == checks[i].message;
        }
      }
      assert r == StringIssues(checks, s);
    }
  }

  /** `i` is the first check of `checks` that `s` fails. */
  predicate FirstStringFailure<M>(checks: seq<StringCheck<M>>, s: string, i: int)
  {
    0 <= i < |checks| && !StringPasses(checks[i], s) && forall j :: 0 <= j < i ==> StringPasses(checks[j], s)
  }

  /** `i` is the last check of `checks` that `s` fails. */
  predicate LastStringFailure<M>(checks: seq<StringCheck<M>>, s: string, i: int)
  {
    0 <= i < |checks| && !StringPasses(checks[i], s) && forall j :: i < j < |checks| ==> StringPasses(checks[j], s)
  }

  /** Behind a passing first check, the first failure of the rest is the
      first failure of the whole, one place further on. */
  lemma FirstStringFailureShifts<M>(checks: seq<StringCheck<M>>, s: string, i: int)
    requires checks != [] && StringPasses(checks[0], s) && FirstStringFailure(checks[1..], s, i)
    ensures FirstStringFailure(checks, s, i + 1) && checks[i + 1] == checks[1..][i]
  {
    forall j | 0 <= j < i + 1 ensures StringPasses(checks[j], s) {
      if j > 0 { assert checks[j] == checks[1..][j - 1]; }
    }
  }

  /** The first message a string field lists is that of its first failing check. */
  lemma {:induction false} StringIssuesFirst<M>(checks: seq<StringCheck<M>>, s: string)
    ensures StringIssues(checks, s) != [] ==> exists i :: FirstStringFailure(checks, s, i) && StringIssues(checks, s)[0] == checks[i].message
  {
    if checks != [] && StringIssues(checks, s) != [] {
      var t := checks[1..];
      var r := StringIssues(checks, s);
      var rt := StringIssues(t, s);
      if !StringPasses(checks[0], s) {
        assert r == [checks[0].message] + rt;
        assert FirstStringFailure(checks, s, 0) && r[0] == checks[0].message;
      } else {
        assert r == rt;
        StringIssuesFirst(t, s);
        var i :| FirstStringFailure(t, s, i) && rt[0] == t[i].message;
        FirstStringFailureShifts(checks, s, i);
      }
    }
  }

  /** The last message a string field lists is that of its last failing check. */
  lemma {:induction false} StringIssuesLast<M>(checks: seq<StringCheck<M>>, s: string)
    ensures StringIssues(checks, s) != [] ==> exists i :: LastStringFailure(checks, s, i) && StringIssues(checks, s)[|StringIssues(checks, s)| - 1] == checks[i].message
  {
    if checks != [] && StringIssues(checks, s) != [] {
      var t := checks[1..];
      var r := StringIssues(checks, s);
      var rt := StringIssues(t, s);
      var h := if StringPasses(checks[0], s) then [] else [checks[0].message];
      assert r == h + rt;
      if rt == [] {
        forall j | 0 < j < |checks| ensures StringPasses(checks[j], s) {
          assert checks[j] == t[j - 1];
        }
        assert LastStringFailure(checks, s, 0) && r[|r| - 1] == checks[0].message;
      } else {
        StringIssuesLast(t, s);
        var i :| LastStringFailure(t, s, i) && rt[|rt| - 1] == t[i].message;
        forall j | i + 1 < j < |checks| ensures StringPasses(checks[j], s) {
          assert checks[j] == t[j - 1];
        }
        assert checks[i + 1] == t[i];
        assert LastStringFailure(checks, s, i + 1) && r[|r| - 1] == rt[|rt| - 1];
      }
    }
  }

  /** Each message a number field lists is that of one of its failing checks. */
  lemma {:induction false} NumberIssuesListFailures<M>(checks: seq<NumberCheck<M>>, n: int)
    ensures forall k :: 0 <= k < |NumberIssues(checks, n)| ==>
      exists i :: 0 <= i < |checks| && !NumberPasses(checks[i], n) && NumberIssues(checks, n)[k] == checks[i].message
  {
    if checks != [] {
      var t := checks[1..];
      var r := NumberIssues(checks, n);
      var rt := NumberIssues(t, n);
      var h := if NumberPasses(checks[0], n) then [] else [checks[0].message];
      assert r == h + rt;
      NumberIssuesListFailures(t, n);
      forall k | 0 <= k < |r|
        ensures exists i :: 0 <= i < |checks| && !NumberPasses(checks[i], n) && r[k] == checks[i].message
      {
        if k < |h| {
          assert !NumberPasses(checks[0], n) && r[k] == checks[0].message;
        } else {
          assert r[k] == rt[k - |h|];
          var i :| 0 <= i < |t| && !NumberPasses(t[i], n) && rt[k - |h|] == t[i].message;
          assert checks[i + 1] == t[i];
          assert !NumberPasses(checks[i + 1], n) && r[k] == checks[i + 1].message;
        }
      }
    } else {
      assert |NumberIssues(checks, n)| == 0;
    }
  }

  /** The message of every failing check of a number field is listed. */
  lemma {:induction false} NumberIssuesListEveryFailure<M>(checks: seq<NumberCheck<M>>, n: int)
    ensures forall i :: 0 <= i < |checks| && !NumberPasses(checks[i], n) ==>
      exists k :: 0 <= k < |NumberIssues(checks, n)| && NumberIssues(checks, n)[k] == checks[i].message
  {
    if checks != [] {
      var t := checks[1..];
      var r := NumberIssues(checks, n);
      var rt := NumberIssues(t, n);
      var h := if NumberPasses(checks[0], n) then [] else [checks[0].message];
      assert r == h + rt;
      NumberIssuesListEveryFailure(t, n);
      forall i | 0 <= i < |checks| && !NumberPasses(checks[i], n)
        ensures exists k :: 0 <= k < |r| && r[k] == checks[i].message
      {
        if i == 0 {
          assert 0 < |r| && r[0] == checks[0].message;
        } else {
          assert t[i - 1] == checks[i];
          var k :| 0 <= k < |rt| && rt[k] == t[i - 1].message;
          assert 0 <= k + |h| < |r| && r[k + |h|] == checks[i].message;
        }
      }
      assert r == NumberIssues(checks, n);
    }
  }

  /** `i` is the first check of `checks` that `n` fails. */
  predicate FirstNumberFailure<M>(checks: seq<NumberCheck<M>>, n: int, i: int)
  {
    0 <= i < |checks| && !NumberPasses(checks[i], n) && forall j :: 0 <= j < i ==> NumberPasses(checks[j], n)
  }

  /** `i` is the last check of `checks` that `n` fails. */
  predicate LastNumberFailure<M>(checks: seq<NumberCheck<M>>, n: int, i: int)
  {
    0 <= i < |checks| && !NumberPasses(checks[i], n) && forall j :: i < j < |checks| ==> NumberPasses(checks[j], n)
  }

  /** Behind a passing first check, the first failure of the rest is the
      first failure of the whole, one place further on. */
  lemma FirstNumberFailureShifts<M>(checks: seq<NumberCheck<M>>, n: int, i: int)
    requires checks != [] && NumberPasses(checks[0], n) && FirstNumberFailure(checks[1..], n, i)
    ensures FirstNumberFailure(checks, n, i + 1) && checks[i + 1] == checks[1..][i]
  {
    forall j | 0 <= j < i + 1 ensures NumberPasses(checks[j], n) {
      if j > 0 { assert checks[j] == checks[1..][j - 1]; }
    }
  }

  /** The first message a number field lists is that of its first failing check. */
  lemma {:induction false} NumberIssuesFirst<M>(checks: seq<NumberCheck<M>>, n: int)
    ensures NumberIssues(checks, n) != [] ==> exists i :: FirstNumberFailure(checks, n, i) && NumberIssues(checks, n)[0] == checks[i].message
  {
    if checks != [] && NumberIssues(checks, n) != [] {
      var t := checks[1..];
      var r := NumberIssues(checks, n);
      var rt := NumberIssues(t, n);
      if !NumberPasses(checks[0], n) {
        assert r == [checks[0].message] + rt;
        assert FirstNumberFailure(checks, n, 0) && r[0] == checks[0].message;
      } else {
        assert r == rt;
        NumberIssuesFirst(t, n);
        var i :| FirstNumberFailure(t, n, i) && rt[0] == t[i].message;
        FirstNumberFailureShifts(checks, n, i);
      }
    }
  }

  /** The last message a number field lists is that of its last failing check. */
  lemma {:induction false} NumberIssuesLast<M>(checks: seq<NumberCheck<M>>, n: int)
    ensures NumberIssues(checks, n) != [] ==> exists i :: LastNumberFailure(checks, n, i) && NumberIssues(checks, n)[|NumberIssues(checks, n)| - 1] == checks[i].message
  {
    if checks != [] && NumberIssues(checks, n) != [] {
      var t := checks[1..];
      var r := NumberIssues(checks, n);
      var rt := NumberIssues(t, n);
      var h := if NumberPasses(checks[0], n) then [] else [checks[0].message];
      assert r == h + rt;
      if rt == [] {
        forall j | 0 < j < |checks| ensures NumberPasses(checks[j], n) {
          assert checks[j] == t[j - 1];
        }
        assert LastNumberFailure(checks, n, 0) && r[|r| - 1] == checks[0].message;
      } else {
        NumberIssuesLast(t, n);
        var i :| LastNumberFailure(t, n, i) && rt[|rt| - 1] == t[i].message;
        forall j | i + 1 < j < |checks| ensures NumberPasses(checks[j], n) {
          assert checks[j] == t[j - 1];
        }
        assert checks[i + 1] == t[i];
        assert LastNumberFailure(checks, n, i + 1) && r[|r| - 1] == rt[|rt| - 1];
      }
    }
  }

  /** One failed check: the field it belongs to (the first element of the
      issue's path) and its message. */
  datatype Issue<P, M> = Issue(path: P, message: M)

  /** What a whole-object parse returns: the validated value, or the
      issues it raised. */
  datatype Parsed<T, P, M> = Valid(value: T) | Invalid(issues: seq<Issue<P, M>>)

  /** The messages of one field, reported under that field's name. */
  function AtPath<P, M>(path: P, messages: seq<M>): (r: seq<Issue<P, M>>)
    ensures |r| == |messages|
    ensures forall i :: 0 <= i < |r| ==> r[i] == Issue(path, messages[i])
  {
    if messages == [] then [] else [Issue(path, messages[0])] + AtPath(path, messages[1..])
  }

  /** The messages reported for `path`, in order. */
  function MessagesAt<P(==), M>(issues: seq<Issue<P, M>>, path: P): seq<M>
  {
    if issues == [] then []
    else (if issues[0].path == path then [issues[0].message] else []) + MessagesAt(issues[1..], path)
  }

  /** The messages one field of an object schema raised, under its name;
      an object schema reports its fields in shape order. */
  datatype FieldReport<P, M> = FieldReport(path: P, messages: seq<M>)

  /** The issue list of an object parse: each field's messages in turn. */
  function Report<P, M>(fields: seq<FieldReport<P, M>>): seq<Issue<P, M>>
  {
    if fields == [] then [] else AtPath(fields[0].path, fields[0].messages) + Report(fields[1..])
  }

  predicate DistinctPaths<P(==), M>(fields: seq<FieldReport<P, M>>)
  {
    forall i, j :: 0 <= i < j < |fields| ==> fields[i].path != fields[j].path
  }

  /** An object schema's report: each field of its shape, in order, with
      the messages that field raised. */
  function Tagged<P, M>(shape: seq<P>, messages: P -> seq<M>): seq<FieldReport<P, M>>
  {
    seq(|shape|, i requires 0 <= i < |shape| => FieldReport(shape[i], messages(shape[i])))
  }

  /** No field appears twice in a shape. */
  predicate Distinct<P(==)>(shape: seq<P>)
  {
    forall i, j :: 0 <= i < j < |shape| ==> shape[i] != shape[j]
  }

  /** A shape whose fields can be numbered by their positions is distinct. */
  lemma RankedDistinct<P>(shape: seq<P>, rank: P -> int)
    requires forall i :: 0 <= i < |shape| ==> rank(shape[i]) == i
    ensures Distinct(shape)
  {
  }

  lemma TaggedDistinct<P, M>(shape: seq<P>, messages: P -> seq<M>)
    requires Distinct(shape)
    ensures DistinctPaths(Tagged(shape, messages))
  {
  }

  /** An object parse raises no issue exactly when no field raised one. */
  lemma {:induction false} ReportEmpty<P, M>(fields: seq<FieldReport<P, M>>)
    ensures Report(fields) == [] <==> forall i :: 0 <= i < |fields| ==> fields[i].messages == []
  {
    if fields != [] {
      ReportEmpty(fields[1..]);
      assert forall i :: 1 <= i < |fields| ==> fields[i] == fields[1..][i - 1];
    }
  }

  /** A tagged report raises nothing exactly when no field of the shape
      raised anything. */
  lemma TaggedEmpty<P, M>(shape: seq<P>, messages: P -> seq<M>)
    ensures Report(Tagged(shape, messages)) == [] <==> forall p :: p in shape ==> messages(p) == []
  {
    var fields := Tagged(shape, messages);
    ReportEmpty(fields);
    assert forall i :: 0 <= i < |fields| ==> fields[i].messages == messages(shape[i]);
  }

  /** In an object parse, the messages found under a field's name are
      exactly the messages that field raised, and a name that is not a
      field of the object has none. */
  lemma {:induction false} ReportAt<P, M>(fields: seq<FieldReport<P, M>>, path: P)
    requires DistinctPaths(fields)
    ensures forall k :: 0 <= k < |fields| && fields[k].path == path ==>
      MessagesAt(Report(fields), path) == fields[k].messages
    ensures (forall k :: 0 <= k < |fields| ==> fields[k].path != path) ==>
      MessagesAt(Report(fields), path) == []
  {
    if fields != [] {
      var head := AtPath(fields[0].path, fields[0].messages);
      MessagesAtAppend(head, Report(fields[1..]), path);
      MessagesAtPath(fields[0].path, fields[0].messages, path);
      assert DistinctPaths(fields[1..]) by {
        forall i, j | 0 <= i < j < |fields[1..]| ensures fields[1..][i].path != fields[1..][j].path {
          assert fields[1..][i] == fields[i + 1] && fields[1..][j] == fields[j + 1];
        }
      }
      ReportAt(fields[1..], path);
      forall k | 0 <= k < |fields| && fields[k].path == path
        ensures MessagesAt(Report(fields), path) == fields[k].messages
      {
        if k == 0 {
          assert forall j :: 0 <= j < |fields[1..]| ==> fields[1..][j].path != path by {
            forall j | 0 <= j < |fields[1..]| ensures fields[1..][j].path != path {
              assert fields[1..][j] == fields[j + 1];
            }
          }
        } else {
          assert fields[1..][k - 1] == fields[k];
        }
      }
      if forall k :: 0 <= k < |fields| ==> fields[k].path != path {
        assert forall j :: 0 <= j < |fields[1..]| ==> fields[1..][j].path != path by {
          forall j | 0 <= j < |fields[1..]| ensures fields[1..][j].path != path {
            assert fields[1..][j] == fields[j + 1];
          }
        }
      }
    }
  }

  /** The field names that have at least one issue. */
  function Paths<P(==), M>(issues: seq<Issue<P, M>>): set<P>
  {
    set i | 0 <= i < |issues| :: issues[i].path
  }

  /** The error map the submit handlers build: starting from an empty map,
      every issue in turn writes its message under its field, so the last
      message of a field is the one that stays. */
  function LastMessages<P(==), M>(issues: seq<Issue<P, M>>): map<P, M>
  {
    if issues == [] then map[]
    else
      var last := issues[|issues| - 1];
      LastMessages(issues[..|issues| - 1])[last.path := last.message]
  }

  /** Per-field feedback as the handlers write it. The field's schema is
      parsed on its own, so every issue it raises has an empty path; the
      lookup `find(e => e.path.includes(field))` therefore finds nothing
      and a failing value leaves the field's error as it was. Only a
      passing value clears the field's error. */
  function FieldErrorAsWritten<P(==), M>(errors: map<P, M>, field: P, messages: seq<M>): (r: map<P, M>)
    ensures messages == [] ==> field !in r
    ensures messages != [] ==> r == errors
    ensures forall k :: k in errors && k != field ==> k in r && r[k] == errors[k]
  {
    if messages == [] then errors - {field} else errors
  }

  /** Per-field feedback as intended: the field's error is cleared when its
      value passes and is its first failing message otherwise; every other
      field's error is kept. */
  function FieldError<P(==), M>(errors: map<P, M>, field: P, messages: seq<M>): (r: map<P, M>)
    ensures r.Keys == if messages == [] then errors.Keys - {field} else errors.Keys + {field}
    ensures field in r ==> r[field] == messages[0]
    ensures forall k :: k in errors && k != field ==> r[k] == errors[k]
  {
    if messages == [] then errors - {field} else errors[field := messages[0]]
  }

  /** Some field shows an error. */
  predicate AnyError<P, M>(errors: map<P, M>)
  {
    errors != map[]
  }

  /** The `forEach` loop of the submit handlers. */
  method CollectFieldErrors<P(==), M>(issues: seq<Issue<P, M>>) returns (errors: map<P, M>)
    ensures errors == LastMessages(issues)
  {
    errors := map[];
    var i := 0;
    while i < |issues|
      invariant 0 <= i <= |issues|
      invariant errors == LastMessages(issues[..i])
    {
      assert issues[..i + 1][..i] == issues[..i];
      errors := errors[issues[i].path := issues[i].message];
      i := i + 1;
    }
    assert issues[..i] == issues;
  }

  lemma {:induction false} MessagesAtAppend<P, M>(a: seq<Issue<P, M>>, b: seq<Issue<P, M>>, path: P)
    ensures MessagesAt(a + b, path) == MessagesAt(a, path) + MessagesAt(b, path)
  {
    if a != [] {
      assert (a + b)[1..] == a[1..] + b;
      MessagesAtAppend(a[1..], b, path);
    } else {
      assert a + b == b;
    }
  }

  /** The messages of a field reported under its own name are found there;
      nothing is found under any other name. */
  lemma {:induction false} MessagesAtPath<P, M>(p: P, messages: seq<M>, q: P)
    ensures MessagesAt(AtPath(p, messages), q) == if p == q then messages else []
  {
    if messages != [] {
      MessagesAtPath(p, messages[1..], q);
    }
  }

  /** A field is a key of the error map exactly when it has an issue, and
      its value is the LAST message reported for it. */
  lemma {:induction false} LastMessagesKeepsLast<P, M>(issues: seq<Issue<P, M>>, path: P)
    ensures path in LastMessages(issues) <==> MessagesAt(issues, path) != []
    ensures path in LastMessages(issues) ==>
      var ms := MessagesAt(issues, path); LastMessages(issues)[path] == ms[|ms| - 1]
  {
    if issues != [] {
      var n := |issues| - 1;
      var init := issues[..n];
      assert issues == init + [issues[n]];
      MessagesAtAppend(init, [issues[n]], path);
      assert MessagesAt([issues[n]], path) == if issues[n].path == path then [issues[n].message] else [];
      LastMessagesKeepsLast(init, path);
    }
  }

  /** In an object parse, the error map the submit handlers build has a
      key exactly for the fields that raised a message. */
  lemma ReportErrorKeys<P, M>(fields: seq<FieldReport<P, M>>, path: P)
    requires DistinctPaths(fields)
    ensures path in LastMessages(Report(fields)) <==>
      exists k :: 0 <= k < |fields| && fields[k].path == path && fields[k].messages != []
  {
    LastMessagesKeepsLast(Report(fields), path);
    ReportAt(fields, path);
  }

  /** After a failed parse the error map's keys are the paths of the
      fields that raised something. */
  lemma ReportErrorKeySet<P, M>(fields: seq<FieldReport<P, M>>)
    requires DistinctPaths(fields)
    ensures LastMessages(Report(fields)).Keys ==
      set k | 0 <= k < |fields| && fields[k].messages != [] :: fields[k].path
  {
    var raised := set k | 0 <= k < |fields| && fields[k].messages != [] :: fields[k].path;
    var keys := LastMessages(Report(fields)).Keys;
    forall p | p in keys ensures p in raised {
      ReportErrorKeys(fields, p);
      var k :| 0 <= k < |fields| && fields[k].path == p && fields[k].messages != [];
      assert fields[k].path in raised;
    }
    forall p | p in raised ensures p in keys {
      var k :| 0 <= k < |fields| && fields[k].messages != [] && fields[k].path == p;
      ReportErrorKeys(fields, p);
    }
  }

  /** In the report of a shape with no repeated field, the messages under
      a field of the shape are exactly the ones that field raised. */
  lemma TaggedAt<P, M>(shape: seq<P>, messages: P -> seq<M>, p: P)
    requires Distinct(shape) && p in shape
    ensures MessagesAt(Report(Tagged(shape, messages)), p) == messages(p)
  {
    TaggedDistinct(shape, messages);
    var k :| 0 <= k < |shape| && shape[k] == p;
    assert Tagged(shape, messages)[k] == FieldReport(p, messages(p));
    ReportAt(Tagged(shape, messages), p);
  }

  /** A field outside the shape has no messages in its report. */
  lemma TaggedAbsent<P, M>(shape: seq<P>, messages: P -> seq<M>, p: P)
    requires Distinct(shape) && p !in shape
    ensures MessagesAt(Report(Tagged(shape, messages)), p) == []
  {
    TaggedDistinct(shape, messages);
    ReportAt(Tagged(shape, messages), p);
  }

  /** The error map built from a report has a key exactly for the fields
      of the shape that raised something. */
  lemma TaggedKeys<P, M>(shape: seq<P>, messages: P -> seq<M>)
    requires Distinct(shape)
    ensures LastMessages(Report(Tagged(shape, messages))).Keys ==
      set p | p in shape && messages(p) != []
  {
    var fields := Tagged(shape, messages);
    TaggedDistinct(shape, messages);
    ReportErrorKeySet(fields);
    assert forall k :: 0 <= k < |fields| ==> fields[k] == FieldReport(shape[k], messages(shape[k]));
    assert (set k | 0 <= k < |fields| && fields[k].messages != [] :: fields[k].path)
      == (set p | p in shape && messages(p) != []) by {
      forall p | p in shape && messages(p) != []
        ensures p in (set k | 0 <= k < |fields| && fields[k].messages != [] :: fields[k].path)
      {
        var k :| 0 <= k < |shape| && shape[k] == p;
        assert fields[k].path == p;
      }
    }
  }

  /** The error map keeps, for a field of the shape that raised something,
      the last message that field raised. */
  lemma TaggedLast<P, M>(shape: seq<P>, messages: P -> seq<M>, p: P)
    requires Distinct(shape) && p in shape && messages(p) != []
    ensures p in LastMessages(Report(Tagged(shape, messages)))
    ensures LastMessages(Report(Tagged(shape, messages)))[p] == messages(p)[|messages(p)| - 1]
  {
    TaggedAt(shape, messages, p);
    LastMessagesKeepsLast(Report(Tagged(shape, messages)), p);
  }

  /** A field that raises at most one message keeps that message in the
      error map: for it the last message is also the first. */
  lemma TaggedSingle<P, M>(shape: seq<P>, messages: P -> seq<M>, p: P)
    requires Distinct(shape) && |messages(p)| <= 1
    ensures p in LastMessages(Report(Tagged(shape, messages))) ==>
      |messages(p)| == 1 && LastMessages(Report(Tagged(shape, messages)))[p] == messages(p)[0]
  {
    LastMessagesKeepsLast(Report(Tagged(shape, messages)), p);
    if p in shape {
      TaggedAt(shape, messages, p);
    } else {
      TaggedAbsent(shape, messages, p);
    }
  }

  /** The keys of the error map are exactly the fields with issues. */
  lemma {:induction false} LastMessagesKeys<P, M>(issues: seq<Issue<P, M>>)
    ensures LastMessages(issues).Keys == Paths(issues)
  {
    if issues != [] {
      var n := |issues| - 1;
      LastMessagesKeys(issues[..n]);
      assert issues == issues[..n] + [issues[n]];
      assert Paths(issues) == Paths(issues[..n]) + {issues[n].path};
    }
  }

  /** A failed parse always leaves an error map that shows an error. */
  lemma LastMessagesShowError<P, M>(issues: seq<Issue<P, M>>)
    requires issues != []
    ensures AnyError(LastMessages(issues))
  {
    var n := |issues| - 1;
    assert issues[n].path in LastMessages(issues);
  }
}
