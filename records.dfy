/**
 * The data both table components display: person records, the six fields a
 * column can sort by, and JavaScript's `>` applied to two values of one field.
 */
module Records {

  /** One row of the data set. */
  datatype Person = Person(
    id: int,
    firstName: string,
    lastName: string,
    email: string,
    gender: string,
    ipAddress: string)

  /** The keys of a person that a column sorts by. */
  datatype Field = Id | FirstName | LastName | Email | Gender | IpAddress

  /**
   * The property name of a field, as the components spell it. No name is
   * empty, so `sortData`'s `if (!sortKey)` guard never fires.
   */
  function FieldName(f: Field): (name: string)
    ensures |name| > 0
  {
    match f
    case Id => "id"
    case FirstName => "first_name"
    case LastName => "last_name"
    case Email => "email"
    case Gender => "gender"
    case IpAddress => "ip_address"
  }

  /** The value of one field: `id` holds a number, the other five hold strings. */
  datatype Key = Num(n: int) | Str(s: string)

  /** `p[f]`. */
  function KeyOf(p: Person, f: Field): (k: Key)
    ensures k.Num? <==> f == Id
  {
    match f
    case Id => Num(p.id)
    case FirstName => Str(p.firstName)
    case LastName => Str(p.lastName)
    case Email => Str(p.email)
    case Gender => Str(p.gender)
    case IpAddress => Str(p.ipAddress)
  }

  /**
   * `a < b` on two strings: the first position where they differ decides,
   * and a proper prefix is smaller than the longer string.
   */
  predicate StrLess(a: string, b: string): (r: bool)
    ensures r ==> a != b
    ensures |a| < |b| && a == b[..|a|] ==> r
  {
    if |b| == 0 then false
    else if |a| == 0 then true
    else if a[0] != b[0] then a[0] < b[0]
    else
      assert |a| < |b| && a == b[..|a|] ==> a[1..] == b[1..][..|a| - 1];
      StrLess(a[1..], b[1..])
  }

  lemma {:induction false} StrLessIrreflexive(a: string)
    ensures !StrLess(a, a)
  {
    if |a| > 0 {
      StrLessIrreflexive(a[1..]);
    }
  }

  lemma {:induction false} StrLessTransitive(a: string, b: string, c: string)
    requires StrLess(a, b) && StrLess(b, c)
    ensures StrLess(a, c)
  {
    if |a| > 0 && a[0] == b[0] && b[0] == c[0] {
      StrLessTransitive(a[1..], b[1..], c[1..]);
    }
  }

  lemma StrLessAsymmetric(a: string, b: string)
    requires StrLess(a, b)
    ensures !StrLess(b, a)
  {
    if StrLess(b, a) {
      StrLessTransitive(a, b, a);
      StrLessIrreflexive(a);
    }
  }

  lemma {:induction false} StrLessTotal(a: string, b: string)
    requires a != b
    ensures StrLess(a, b) || StrLess(b, a)
  {
    if |a| > 0 && |b| > 0 && a[0] == b[0] {
      assert a == [a[0]] + a[1..] && b == [b[0]] + b[1..];
      StrLessTotal(a[1..], b[1..]);
    }
  }

  /** `x > y` for two field values; values of different kinds never compare greater. */
  predicate Greater(x: Key, y: Key): (r: bool)
    ensures r ==> x != y && x.Num? == y.Num?
  {
    match x
    case Num(m) => y.Num? && m > y.n
    case Str(s) => y.Str? && StrLess(y.s, s)
  }

  /** `a[f] > b[f]`, the test both comparators are built on. */
  predicate Gt(a: Person, b: Person, f: Field): (r: bool)
    ensures r ==> KeyOf(a, f) != KeyOf(b, f)
  {
    Greater(KeyOf(a, f), KeyOf(b, f))
  }

  lemma GtTie(a: Person, b: Person, f: Field)
    requires KeyOf(a, f) == KeyOf(b, f)
    ensures !Gt(a, b, f) && !Gt(b, a, f)
  {
    if f != Id {
      StrLessIrreflexive(KeyOf(a, f).s);
    }
  }

  lemma GtAsymmetric(a: Person, b: Person, f: Field)
    requires Gt(a, b, f)
    ensures !Gt(b, a, f)
  {
    if f != Id {
      StrLessAsymmetric(KeyOf(b, f).s, KeyOf(a, f).s);
    }
  }

  lemma GtTransitive(a: Person, b: Person, c: Person, f: Field)
    requires Gt(a, b, f) && Gt(b, c, f)
    ensures Gt(a, c, f)
  {
    if f != Id {
      StrLessTransitive(KeyOf(c, f).s, KeyOf(b, f).s, KeyOf(a, f).s);
    }
  }

  /** On one field, two different values always compare one way or the other. */
  lemma GtTotal(a: Person, b: Person, f: Field)
    requires KeyOf(a, f) != KeyOf(b, f)
    ensures Gt(a, b, f) || Gt(b, a, f)
  {
    if f != Id {
      StrLessTotal(KeyOf(a, f).s, KeyOf(b, f).s);
    }
  }

  /** No two rows of `s` share a value of field `f`. */
  predicate DistinctKeys(s: seq<Person>, f: Field)
  {
    forall i, j :: 0 <= i < j < |s| ==> KeyOf(s[i], f) != KeyOf(s[j], f)
  }

  /** Smallest value of `f` first, every value strictly greater than the one before. */
  predicate StrictlyAscending(s: seq<Person>, f: Field)
  {
    forall i, j :: 0 <= i < j < |s| ==> Gt(s[j], s[i], f)
  }

  /** Largest value of `f` first, every value strictly smaller than the one before. */
  predicate StrictlyDescending(s: seq<Person>, f: Field)
  {
    forall i, j :: 0 <= i < j < |s| ==> Gt(s[i], s[j], f)
  }

  /** The direction state of both components (`"ascn" | "desc"`). */
  datatype SortOrder = Ascn | Desc

  /** `sortOrder === "ascn" ? "desc" : "ascn"`: the other direction. */
  function Flip(o: SortOrder): (r: SortOrder)
    ensures r != o
  {
    if o == Ascn then Desc else Ascn
  }

  /** The two arrow icons a header may show. */
  datatype Arrow = ArrowUpward | ArrowDownward
}
