/**
 * The decision the database wrapper makes when it is constructed (the
 * `Sqlite` class of sqlite.py and its copy `DataBase` in main.py): the file
 * must exist and `__check_table_schema` must pass, otherwise the process
 * exits with status 1. The schema is the list of rows `PRAGMA table_info`
 * returns, each given by its string-valued columns (name, declared type and
 * default value); its integer columns can never equal a field name.
 */
module Sqlite {
  import opened Wrappers

  /** Python's `<=` on `str`: lexicographic by code point. */
  predicate StrLe(a: string, b: string)
    decreases |a|
  {
    a == [] || (b != [] && (a[0] < b[0] || (a[0] == b[0] && StrLe(a[1..], b[1..]))))
  }

  lemma {:induction false} StrLeTotal(a: string, b: string)
    ensures StrLe(a, b) || StrLe(b, a)
    decreases |a|
  {
    if a != [] && b != [] && a[0] == b[0] {
      StrLeTotal(a[1..], b[1..]);
    }
  }

  lemma {:induction false} StrLeAntisymmetric(a: string, b: string)
    requires StrLe(a, b) && StrLe(b, a)
    ensures a == b
    decreases |a|
  {
    if a != [] {
      StrLeAntisymmetric(a[1..], b[1..]);
      assert a == [a[0]] + a[1..] && b == [b[0]] + b[1..];
    }
  }

  lemma {:induction false} StrLeTransitive(a: string, b: string, c: string)
    requires StrLe(a, b) && StrLe(b, c)
    ensures StrLe(a, c)
    decreases |a|
  {
    if a != [] && a[0] == b[0] && b[0] == c[0] {
      StrLeTransitive(a[1..], b[1..], c[1..]);
    }
  }

  predicate SortedStrings(s: seq<string>) {
    forall i, j :: 0 <= i < j < |s| ==> StrLe(s[i], s[j])
  }

  function InsertStr(x: string, t: seq<string>): (r: seq<string>)
    ensures |r| == |t| + 1
  {
    if t == [] || StrLe(x, t[0]) then [x] + t else [t[0]] + InsertStr(x, t[1..])
  }

  /** Python's `sorted` on a list of strings. */
  function Sorted(s: seq<string>): (r: seq<string>)
    ensures |r| == |s|
  {
    if s == [] then [] else InsertStr(s[0], Sorted(s[1..]))
  }

  lemma {:induction false} InsertStrPermutation(x: string, t: seq<string>)
    ensures multiset(InsertStr(x, t)) == multiset(t) + multiset{x}
    decreases |t|
  {
    if !(t == [] || StrLe(x, t[0])) {
      InsertStrPermutation(x, t[1..]);
      assert t == [t[0]] + t[1..];
    }
  }

  lemma {:induction false} SortedPermutation(s: seq<string>)
    ensures multiset(Sorted(s)) == multiset(s)
    decreases |s|
  {
    if s != [] {
      SortedPermutation(s[1..]);
      InsertStrPermutation(s[0], Sorted(s[1..]));
      assert s == [s[0]] + s[1..];
    }
  }

  lemma {:induction false} InsertStrSorted(x: string, t: seq<string>)
    requires SortedStrings(t)
    ensures SortedStrings(InsertStr(x, t))
    decreases |t|
  {
    var r := InsertStr(x, t);
    if t == [] || StrLe(x, t[0]) {
      forall i, j | 0 <= i < j < |r|
        ensures StrLe(r[i], r[j])
      {
        if i == 0 && j > 1 {
          StrLeTransitive(x, t[0], t[j - 1]);
        }
      }
    } else {
      StrLeTotal(x, t[0]);
      assert SortedStrings(t[1..]) by {
        forall i, j | 0 <= i < j < |t| - 1
          ensures StrLe(t[1..][i], t[1..][j])
        {
          assert t[1..][i] == t[i + 1] && t[1..][j] == t[j + 1];
        }
      }
      InsertStrSorted(x, t[1..]);
      var r' := InsertStr(x, t[1..]);
      InsertStrPermutation(x, t[1..]);
      forall j | 0 <= j < |r'|
        ensures StrLe(t[0], r'[j])
      {
        assert r'[j] in multiset(r');
        if r'[j] != x {
          assert r'[j] in multiset(t[1..]);
          var k :| 0 <= k < |t[1..]| && t[1..][k] == r'[j];
          assert t[k + 1] == r'[j];
        }
      }
    }
  }

  lemma {:induction false} SortedIsSorted(s: seq<string>)
    ensures SortedStrings(Sorted(s))
    decreases |s|
  {
    if s != [] {
      SortedIsSorted(s[1..]);
      InsertStrSorted(s[0], Sorted(s[1..]));
    }
  }

  lemma SortedStringsTail(a: seq<string>)
    requires |a| > 0 && SortedStrings(a)
    ensures SortedStrings(a[1..])
  {
    forall p, q | 0 <= p < q < |a| - 1
      ensures StrLe(a[1..][p], a[1..][q])
    {
      assert a[1..][p] == a[p + 1] && a[1..][q] == a[q + 1];
    }
  }

  lemma SortedHeadIsLeast(a: seq<string>, x: string)
    requires SortedStrings(a) && x in multiset(a)
    ensures StrLe(a[0], x)
  {
    var i :| 0 <= i < |a| && a[i] == x;
    if i == 0 {
      StrLeTotal(x, x);
    }
  }

  lemma SortedSameHead(a: seq<string>, b: seq<string>)
    requires SortedStrings(a) && SortedStrings(b)
    requires |a| > 0 && |b| > 0 && multiset(a) == multiset(b)
    ensures a[0] == b[0]
  {
    assert a[0] in multiset(b) && b[0] in multiset(a);
    SortedHeadIsLeast(b, a[0]);
    SortedHeadIsLeast(a, b[0]);
    StrLeAntisymmetric(a[0], b[0]);
  }

  lemma MultisetTail(a: seq<string>)
    requires |a| > 0
    ensures multiset(a[1..]) == multiset(a) - multiset{a[0]}
  {
    assert a == [a[0]] + a[1..];
  }

  /** Two sorted lists with the same elements, counted with multiplicity, are the same list. */
  lemma {:induction false} SortedUnique(a: seq<string>, b: seq<string>)
    requires SortedStrings(a) && SortedStrings(b)
    requires multiset(a) == multiset(b)
    ensures a == b
    decreases |a|
  {
    assert |a| == |b| by {
      assert |multiset(a)| == |a| && |multiset(b)| == |b|;
    }
    if a != [] {
      SortedSameHead(a, b);
      MultisetTail(a);
      MultisetTail(b);
      SortedStringsTail(a);
      SortedStringsTail(b);
      SortedUnique(a[1..], b[1..]);
      assert a == [a[0]] + a[1..] && b == [b[0]] + b[1..];
    }
  }

  /** Comparing sorted lists is comparing multisets. */
  lemma SortedEqualIffSameMultiset(a: seq<string>, b: seq<string>)
    ensures Sorted(a) == Sorted(b) <==> multiset(a) == multiset(b)
  {
    SortedPermutation(a);
    SortedPermutation(b);
    if multiset(a) == multiset(b) {
      SortedIsSorted(a);
      SortedIsSorted(b);
      SortedUnique(Sorted(a), Sorted(b));
    }
  }

  /** `[field for field in man_fields if field in schema_tuple]`. */
  function FieldsIn(tuple: seq<string>, manFields: seq<string>): seq<string> {
    if manFields == [] then []
    else (if manFields[0] in tuple then [manFields[0]] else []) + FieldsIn(tuple, manFields[1..])
  }

  /** `existing_fields`: the mandatory fields each schema tuple contains, tuple by tuple. */
  function ExistingFields(schema: seq<seq<string>>, manFields: seq<string>): seq<string> {
    if schema == [] then [] else FieldsIn(schema[0], manFields) + ExistingFields(schema[1..], manFields)
  }

  /** `__check_table_schema`, on the schema the `PRAGMA` query returned. */
  function CheckTableSchema(schema: seq<seq<string>>, manFields: seq<string>): bool {
    Sorted(manFields) == Sorted(ExistingFields(schema, manFields))
  }

  /** How many schema tuples contain `f`. */
  function TuplesWith(schema: seq<seq<string>>, f: string): nat {
    if schema == [] then 0 else (if f in schema[0] then 1 else 0) + TuplesWith(schema[1..], f)
  }

  lemma {:induction false} FieldsInCount(tuple: seq<string>, manFields: seq<string>, f: string)
    ensures multiset(FieldsIn(tuple, manFields))[f] == if f in tuple then multiset(manFields)[f] else 0
    decreases |manFields|
  {
    if manFields != [] {
      FieldsInCount(tuple, manFields[1..], f);
      assert manFields == [manFields[0]] + manFields[1..];
    }
  }

  /** Field `f` is collected once per occurrence in `manFields` per schema tuple containing it. */
  lemma {:induction false} ExistingFieldsCount(schema: seq<seq<string>>, manFields: seq<string>, f: string)
    ensures multiset(ExistingFields(schema, manFields))[f] == multiset(manFields)[f] * TuplesWith(schema, f)
    decreases |schema|
  {
    if schema != [] {
      ExistingFieldsCount(schema[1..], manFields, f);
      FieldsInCount(schema[0], manFields, f);
      var m := multiset(manFields)[f];
      var rest := TuplesWith(schema[1..], f);
      var here := multiset(FieldsIn(schema[0], manFields))[f];
      var there := multiset(ExistingFields(schema[1..], manFields))[f];
      assert multiset(ExistingFields(schema, manFields))[f] == here + there by {
        assert ExistingFields(schema, manFields) == FieldsIn(schema[0], manFields) + ExistingFields(schema[1..], manFields);
      }
      assert there == m * rest;
      if f in schema[0] {
        assert here == m && TuplesWith(schema, f) == rest + 1;
        MulSucc(m, rest);
      } else {
        assert here == 0 && TuplesWith(schema, f) == rest;
      }
    }
  }

  lemma MulSucc(m: nat, n: nat)
    ensures m * (n + 1) == m + m * n
  {
  }

  /** The check passes exactly when `existing_fields` and `man_fields` are equal as multisets. */
  lemma CheckIsMultisetEquality(schema: seq<seq<string>>, manFields: seq<string>)
    ensures CheckTableSchema(schema, manFields) <==> multiset(manFields) == multiset(ExistingFields(schema, manFields))
  {
    SortedEqualIffSameMultiset(manFields, ExistingFields(schema, manFields));
  }

  lemma FieldCountMatches(schema: seq<seq<string>>, manFields: seq<string>, f: string)
    requires f in manFields ==> TuplesWith(schema, f) == 1
    ensures multiset(manFields)[f] == multiset(ExistingFields(schema, manFields))[f]
  {
    ExistingFieldsCount(schema, manFields, f);
    if f !in manFields {
      assert multiset(manFields)[f] == 0;
    }
  }

  lemma EachFieldOnceGivesEquality(schema: seq<seq<string>>, manFields: seq<string>)
    requires forall f :: f in manFields ==> TuplesWith(schema, f) == 1
    ensures multiset(manFields) == multiset(ExistingFields(schema, manFields))
  {
    forall f
      ensures multiset(manFields)[f] == multiset(ExistingFields(schema, manFields))[f]
    {
      FieldCountMatches(schema, manFields, f);
    }
  }

  lemma EqualityGivesEachFieldOnce(schema: seq<seq<string>>, manFields: seq<string>, f: string)
    requires multiset(manFields) == multiset(ExistingFields(schema, manFields))
    requires f in manFields
    ensures TuplesWith(schema, f) == 1
  {
    ExistingFieldsCount(schema, manFields, f);
    OnlyOneFactorKeeps(multiset(manFields)[f], TuplesWith(schema, f));
  }

  /** The check passes exactly when every mandatory field is in exactly one schema tuple. */
  lemma CheckIffEachFieldOnce(schema: seq<seq<string>>, manFields: seq<string>)
    ensures CheckTableSchema(schema, manFields) <==> forall f :: f in manFields ==> TuplesWith(schema, f) == 1
  {
    CheckIsMultisetEquality(schema, manFields);
    if forall f :: f in manFields ==> TuplesWith(schema, f) == 1 {
      EachFieldOnceGivesEquality(schema, manFields);
    }
    if multiset(manFields) == multiset(ExistingFields(schema, manFields)) {
      forall f | f in manFields
        ensures TuplesWith(schema, f) == 1
      {
        EqualityGivesEachFieldOnce(schema, manFields, f);
      }
    }
  }

  lemma OnlyOneFactorKeeps(m: nat, t: nat)
    requires m > 0 && m * t == m
    ensures t == 1
  {
  }

  /** A mandatory field that no schema tuple contains fails the check. */
  lemma MissingFieldFails(schema: seq<seq<string>>, manFields: seq<string>, f: string)
    requires f in manFields
    requires forall i :: 0 <= i < |schema| ==> f !in schema[i]
    ensures !CheckTableSchema(schema, manFields)
  {
    CheckIffEachFieldOnce(schema, manFields);
    NoTupleWith(schema, f);
  }

  lemma {:induction false} NoTupleWith(schema: seq<seq<string>>, f: string)
    requires forall i :: 0 <= i < |schema| ==> f !in schema[i]
    ensures TuplesWith(schema, f) == 0
    decreases |schema|
  {
    if schema != [] {
      NoTupleWith(schema[1..], f);
    }
  }

  lemma {:induction false} TwoTuplesWith(schema: seq<seq<string>>, f: string, i: nat, j: nat)
    requires i < j < |schema| && f in schema[i] && f in schema[j]
    ensures TuplesWith(schema, f) >= 2
    decreases |schema|
  {
    if i == 0 {
      OneTupleWith(schema[1..], f, j - 1);
    } else {
      TwoTuplesWith(schema[1..], f, i - 1, j - 1);
    }
  }

  lemma {:induction false} OneTupleWith(schema: seq<seq<string>>, f: string, j: nat)
    requires j < |schema| && f in schema[j]
    ensures TuplesWith(schema, f) >= 1
    decreases |schema|
  {
    if j > 0 {
      OneTupleWith(schema[1..], f, j - 1);
    }
  }

  /**
   * A mandatory field found in two schema tuples (as a column name in one and
   * a declared type in another, say) is collected twice and fails the check.
   */
  lemma DuplicateFieldFails(schema: seq<seq<string>>, manFields: seq<string>, f: string, i: nat, j: nat)
    requires f in manFields
    requires i < j < |schema| && f in schema[i] && f in schema[j]
    ensures !CheckTableSchema(schema, manFields)
  {
    CheckIffEachFieldOnce(schema, manFields);
    TwoTuplesWith(schema, f, i, j);
  }

  /** No mandatory fields: the check always passes. */
  lemma EmptyFieldsPass(schema: seq<seq<string>>)
    ensures CheckTableSchema(schema, [])
  {
    CheckIffEachFieldOnce(schema, []);
  }

  /** How the constructor ends: connected, or the process exits with a status. */
  datatype Outcome = Connected | Exited(status: int)

  /**
   * The constructor: a missing file, a schema query that raises an SQLite
   * error (`None`), or a failed schema check all end in `exit(1)`.
   */
  function Open(fileExists: bool, schema: Option<seq<seq<string>>>, manFields: seq<string>): (r: Outcome)
    ensures r.Exited? ==> r.status == 1
  {
    if fileExists && schema.Some? && CheckTableSchema(schema.value, manFields) then Connected else Exited(1)
  }

  /** Construction succeeds exactly when the file exists and every mandatory field is in exactly one schema tuple. */
  lemma OpenSucceedsIff(fileExists: bool, schema: Option<seq<seq<string>>>, manFields: seq<string>)
    ensures Open(fileExists, schema, manFields) == Connected <==>
      fileExists && schema.Some? && forall f :: f in manFields ==> TuplesWith(schema.value, f) == 1
  {
    if schema.Some? {
      CheckIffEachFieldOnce(schema.value, manFields);
    }
  }
}
