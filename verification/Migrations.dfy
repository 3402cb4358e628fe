/**
 Applying, listing and rolling back migrations, one process at a time. Versions
 are strings in byte order. Rolling back follows the library the source relies
 on: it takes the oldest `count` versions of the sorted list to be the applied
 ones, where `count` is the number of rows recorded, and reverses the newest of
 those.
 */
module Migrations {
  import opened Wrappers
  import opened Text

  type Version = string

  datatype Migration = Migration(version: Version, name: string)

  // ---------------------------------------------------------------------------
  // Byte order on strings.

  predicate AtMost(a: string, b: string) {
    a == [] || (b != [] && (a[0] < b[0] || (a[0] == b[0] && AtMost(a[1..], b[1..]))))
  }

  predicate Before(a: string, b: string) {
    !AtMost(b, a)
  }

  lemma {:induction false} AtMostTotal(a: string, b: string)
    ensures AtMost(a, b) || AtMost(b, a)
    ensures AtMost(a, b) && AtMost(b, a) ==> a == b
    ensures AtMost(a, a)
  {
    if a != [] {
      AtMostTotal(a[1..], if b == [] then [] else b[1..]);
      assert b != [] ==> (a == b <==> a[0] == b[0] && a[1..] == b[1..]);
    }
  }

  lemma {:induction false} AtMostTransitive(a: string, b: string, c: string)
    requires AtMost(a, b) && AtMost(b, c)
    ensures AtMost(a, c)
  {
    if a != [] && a[0] == b[0] == c[0] {
      AtMostTransitive(a[1..], b[1..], c[1..]);
    }
  }

  // The first character that differs decides, the smaller code point first; a text
  // that ends first comes first.
  lemma {:induction false} FirstDifference(a: string, b: string, i: nat)
    requires i <= |a| && i <= |b| && a[..i] == b[..i]
    requires (i == |a| < |b|) || (i < |a| && i < |b| && a[i] as int < b[i] as int)
    ensures Before(a, b)
  {
    if i > 0 {
      assert a[0] == a[..i][0] == b[..i][0] == b[0];
      assert a[1..][..i - 1] == a[..i][1..] && b[1..][..i - 1] == b[..i][1..];
      FirstDifference(a[1..], b[1..], i - 1);
    }
  }

  lemma FirstDigitDecides(d: nat, e: nat, p: nat, x: nat, y: nat)
    requires x < p && y < p && d < e
    ensures d * p + x < e * p + y
  {
    assert (d + 1) * p <= e * p;
  }

  // On numbers of one width the order of texts is the order of the numbers.
  lemma {:induction false} OrderOfNumbers(a: string, b: string)
    requires |a| == |b| && AllDigits(a) && AllDigits(b)
    ensures AtMost(a, b) <==> Value(a) <= Value(b)
  {
    if a != [] {
      ValueFromLeft(a);
      ValueFromLeft(b);
      ValueBound(a[1..]);
      ValueBound(b[1..]);
      var p := Power(|a| - 1);
      if DigitValue(a[0]) < DigitValue(b[0]) {
        FirstDigitDecides(DigitValue(a[0]), DigitValue(b[0]), p, Value(a[1..]), Value(b[1..]));
      } else if DigitValue(b[0]) < DigitValue(a[0]) {
        FirstDigitDecides(DigitValue(b[0]), DigitValue(a[0]), p, Value(b[1..]), Value(a[1..]));
      } else {
        OrderOfNumbers(a[1..], b[1..]);
      }
    }
  }

  // Text after versions of one width does not change their order.
  lemma {:induction false} BeforeOfPrefix(a: string, b: string, x: string, y: string)
    requires |a| == |b| && Before(a, b)
    ensures Before(a + x, b + y)
  {
    assert a != [] && b != [];
    assert (a + x)[1..] == a[1..] + x && (b + y)[1..] == b[1..] + y;
    if a[0] == b[0] {
      BeforeOfPrefix(a[1..], b[1..], x, y);
    }
  }

  predicate Sorted(s: seq<string>) {
    forall i, j :: 0 <= i < j < |s| ==> AtMost(s[i], s[j])
  }

  function Insert(x: string, s: seq<string>): seq<string> {
    if s == [] || AtMost(x, s[0]) then [x] + s else [s[0]] + Insert(x, s[1..])
  }

  // `sort.Strings`
  function SortStrings(s: seq<string>): seq<string> {
    if s == [] then [] else Insert(s[0], SortStrings(s[1..]))
  }

  lemma ConsSorted(x: string, s: seq<string>)
    requires Sorted(s) && forall j :: 0 <= j < |s| ==> AtMost(x, s[j])
    ensures Sorted([x] + s)
  {
  }

  lemma {:induction false} InsertSorted(x: string, s: seq<string>)
    requires Sorted(s)
    ensures Sorted(Insert(x, s)) && multiset(Insert(x, s)) == multiset{x} + multiset(s)
  {
    if s != [] {
      AtMostTotal(x, s[0]);
      if AtMost(x, s[0]) {
        forall j | 0 <= j < |s| ensures AtMost(x, s[j]) {
          AtMostTotal(s[0], s[0]);
          AtMostTransitive(x, s[0], s[j]);
        }
        ConsSorted(x, s);
      } else {
        InsertSorted(x, s[1..]);
        var rest := Insert(x, s[1..]);
        assert s == [s[0]] + s[1..];
        forall j | 0 <= j < |rest| ensures AtMost(s[0], rest[j]) {
          assert rest[j] in multiset(rest);
          assert rest[j] == x || rest[j] in s[1..];
        }
        ConsSorted(s[0], rest);
      }
    }
  }

  lemma {:induction false} SortStringsSorts(s: seq<string>)
    ensures Sorted(SortStrings(s)) && multiset(SortStrings(s)) == multiset(s)
  {
    if s != [] {
      SortStringsSorts(s[1..]);
      InsertSorted(s[0], SortStrings(s[1..]));
      assert s == [s[0]] + s[1..];
    }
  }

  function Without<T>(s: seq<T>, i: nat): seq<T>
    requires i < |s|
  {
    s[..i] + s[i + 1..]
  }

  lemma WithoutOne<T>(s: seq<T>, i: nat)
    requires i < |s|
    ensures multiset(s) == multiset{s[i]} + multiset(Without(s, i))
    ensures s == s[..i] + ([s[i]] + s[i + 1..])
  {
    assert s == s[..i] + ([s[i]] + s[i + 1..]);
  }

  lemma RestOfPermutation<T>(a: seq<T>, b: seq<T>, i: nat)
    requires multiset(a) == multiset(b) && a != [] && i < |b| && b[i] == a[0]
    ensures multiset(a[1..]) == multiset(Without(b, i))
    ensures a == [a[0]] + a[1..]
    ensures i == 0 ==> Without(b, i) == b[1..]
  {
    WithoutOne(a, 0);
    WithoutOne(b, i);
    assert Without(a, 0) == a[1..];
    assert multiset(a[1..]) == multiset(a) - multiset{a[0]};
    assert multiset(Without(b, i)) == multiset(b) - multiset{b[i]};
  }

  lemma SmallestFirst(a: seq<string>, b: seq<string>)
    requires Sorted(a) && a != [] && b != [] && multiset(a) == multiset(b)
    ensures AtMost(a[0], b[0])
  {
    assert b[0] in multiset(a);
    AtMostTotal(a[0], a[0]);
  }

  // Sorting has one answer.
  lemma {:induction false} SortedUnique(a: seq<string>, b: seq<string>)
    requires Sorted(a) && Sorted(b) && multiset(a) == multiset(b)
    ensures a == b
  {
    assert |a| == |multiset(a)| && |b| == |multiset(b)|;
    if a != [] {
      SmallestFirst(a, b);
      SmallestFirst(b, a);
      AtMostTotal(a[0], b[0]);
      RestOfPermutation(a, b, 0);
      RestOfPermutation(b, a, 0);
      SortedUnique(a[1..], b[1..]);
    }
  }

  // ---------------------------------------------------------------------------
  // Pending.

  function Label(m: Migration): string {
    m.version + "_" + m.name
  }

  // The labels of the migrations that are not applied, in list order.
  function Unapplied(migrations: seq<Migration>, applied: set<Version>): seq<string> {
    if migrations == [] then []
    else
      (if migrations[0].version in applied then [] else [Label(migrations[0])])
      + Unapplied(migrations[1..], applied)
  }

  function SetOf<V(==)>(versions: seq<V>): set<V> {
    set v | v in versions
  }

  lemma SetOfNext<V>(versions: seq<V>, i: nat)
    requires i < |versions|
    ensures SetOf(versions[..i + 1]) == SetOf(versions[..i]) + {versions[i]}
  {
    assert versions[..i + 1] == versions[..i] + [versions[i]];
  }

  lemma UnappliedNext(migrations: seq<Migration>, applied: set<Version>, i: nat)
    requires i < |migrations|
    ensures Unapplied(migrations[..i + 1], applied) ==
            if migrations[i].version in applied then Unapplied(migrations[..i], applied)
            else Unapplied(migrations[..i], applied) + [Label(migrations[i])]
  {
    var m := migrations[i];
    assert migrations[..i + 1] == migrations[..i] + [m];
    UnappliedOfAppend(migrations[..i], [m], applied);
    assert Unapplied([m], applied) == if m.version in applied then [] else [Label(m)];
  }

  method Missing(migrations: seq<Migration>, applied: set<Version>) returns (pending: seq<string>)
    ensures pending == Unapplied(migrations, applied)
  {
    pending := [];
    for i := 0 to |migrations|
      invariant pending == Unapplied(migrations[..i], applied)
    {
      UnappliedNext(migrations, applied, i);
      if migrations[i].version !in applied {
        pending := pending + [Label(migrations[i])];
      }
    }
    assert migrations[..|migrations|] == migrations;
  }

  // `rows` is the version column, `tableExists` whether the table does.
  method Pending(migrations: seq<Migration>, tableExists: bool, rows: seq<Version>) returns (pending: seq<string>)
    ensures pending == SortStrings(Unapplied(migrations, if tableExists then SetOf(rows) else {}))
  {
    var applied: set<Version> := {};
    if tableExists {
      for i := 0 to |rows|
        invariant applied == SetOf(rows[..i])
      {
        SetOfNext(rows, i);
        applied := applied + {rows[i]};
      }
      assert rows[..|rows|] == rows;
    }
    pending := Missing(migrations, applied);
    pending := SortStrings(pending);
  }

  lemma {:induction false} UnappliedOfAppend(a: seq<Migration>, b: seq<Migration>, applied: set<Version>)
    ensures Unapplied(a + b, applied) == Unapplied(a, applied) + Unapplied(b, applied)
  {
    if a == [] {
      assert a + b == b;
    } else {
      assert (a + b)[1..] == a[1..] + b;
      UnappliedOfAppend(a[1..], b, applied);
    }
  }

  lemma {:induction false} UnappliedPermutes(a: seq<Migration>, b: seq<Migration>, applied: set<Version>)
    requires multiset(a) == multiset(b)
    ensures multiset(Unapplied(a, applied)) == multiset(Unapplied(b, applied))
  {
    if a == [] {
      assert |multiset(b)| == 0;
    } else {
      assert a[0] in multiset(a);
      var i :| 0 <= i < |b| && b[i] == a[0];
      RestOfPermutation(a, b, i);
      WithoutOne(b, i);
      UnappliedPermutes(a[1..], Without(b, i), applied);
      UnappliedOfAppend(b[..i], [b[i]] + b[i + 1..], applied);
      UnappliedOfAppend([b[i]], b[i + 1..], applied);
      UnappliedOfAppend(b[..i], b[i + 1..], applied);
      UnappliedOfAppend([a[0]], a[1..], applied);
    }
  }

  predicate ByVersion(migrations: seq<Migration>) {
    forall i, j :: 0 <= i < j < |migrations| ==> Before(migrations[i].version, migrations[j].version)
  }

  predicate FixedWidth(migrations: seq<Migration>, width: nat) {
    forall i :: 0 <= i < |migrations| ==> |migrations[i].version| == width
  }

  lemma {:induction false} UnappliedFrom(migrations: seq<Migration>, applied: set<Version>, text: string)
    requires text in Unapplied(migrations, applied)
    ensures exists m :: m in migrations && m.version !in applied && text == Label(m)
  {
    if migrations[0].version in applied || text != Label(migrations[0]) {
      UnappliedFrom(migrations[1..], applied, text);
    } else {
      assert migrations[0] in migrations;
    }
  }

  lemma {:induction false} UnappliedSorted(migrations: seq<Migration>, applied: set<Version>, width: nat)
    requires ByVersion(migrations) && FixedWidth(migrations, width)
    ensures Sorted(Unapplied(migrations, applied))
  {
    if migrations != [] {
      var first, rest := migrations[0], migrations[1..];
      UnappliedSorted(rest, applied, width);
      var labels := Unapplied(rest, applied);
      forall j | 0 <= j < |labels| ensures AtMost(Label(first), labels[j]) {
        UnappliedFrom(rest, applied, labels[j]);
        var m :| m in rest && m.version !in applied && labels[j] == Label(m);
        BeforeOfPrefix(first.version, m.version, "_" + first.name, "_" + m.name);
        assert Label(first) == first.version + ("_" + first.name) && Label(m) == m.version + ("_" + m.name);
        AtMostTotal(Label(first), Label(m));
      }
    }
  }

  // Whatever order the migrations come in, what is pending is exactly the embedded
  // complement of the applied versions, in version order.
  lemma PendingIsComplement(migrations: seq<Migration>, byVersion: seq<Migration>, applied: set<Version>, width: nat)
    requires multiset(migrations) == multiset(byVersion) && ByVersion(byVersion) && FixedWidth(byVersion, width)
    ensures SortStrings(Unapplied(migrations, applied)) == Unapplied(byVersion, applied)
  {
    SortStringsSorts(Unapplied(migrations, applied));
    UnappliedSorted(byVersion, applied, width);
    UnappliedPermutes(migrations, byVersion, applied);
    SortedUnique(SortStrings(Unapplied(migrations, applied)), Unapplied(byVersion, applied));
  }

  predicate NumbersOfWidth(versions: seq<Version>, width: nat) {
    forall i :: 0 <= i < |versions| ==> |versions[i]| == width && AllDigits(versions[i])
  }

  // The versions as numbers, strictly increasing.
  predicate Increasing(versions: seq<Version>)
    requires forall i :: 0 <= i < |versions| ==> AllDigits(versions[i])
  {
    forall i, j :: 0 <= i < j < |versions| ==> Value(versions[i]) < Value(versions[j])
  }

  lemma IncreasingIsOrdered(versions: seq<Version>, width: nat)
    requires NumbersOfWidth(versions, width) && Increasing(versions)
    ensures forall i, j :: 0 <= i < j < |versions| ==> Before(versions[i], versions[j])
  {
    forall i, j | 0 <= i < j < |versions| ensures Before(versions[i], versions[j]) {
      OrderOfNumbers(versions[j], versions[i]);
    }
  }

  function Versions(migrations: seq<Migration>): (r: seq<Version>)
    ensures |r| == |migrations|
  {
    seq(|migrations|, i requires 0 <= i < |migrations| => migrations[i].version)
  }

  // With numbers of one width for versions, as the migrations have, what is pending
  // comes in the order of those numbers, the smallest first.
  lemma PendingByNumber(migrations: seq<Migration>, byNumber: seq<Migration>, applied: set<Version>, width: nat)
    requires multiset(migrations) == multiset(byNumber)
    requires NumbersOfWidth(Versions(byNumber), width) && Increasing(Versions(byNumber))
    ensures SortStrings(Unapplied(migrations, applied)) == Unapplied(byNumber, applied)
  {
    var versions := Versions(byNumber);
    IncreasingIsOrdered(versions, width);
    forall i, j | 0 <= i < j < |byNumber| ensures Before(byNumber[i].version, byNumber[j].version) {
      assert Before(versions[i], versions[j]);
    }
    forall i | 0 <= i < |byNumber| ensures |byNumber[i].version| == width {
      assert |versions[i]| == width;
    }
    PendingIsComplement(migrations, byNumber, applied, width);
  }

  lemma TwoUnapplied(x: Migration, y: Migration)
    ensures Unapplied([y, x], {}) == [Label(y), Label(x)]
  {
    assert [y, x][1..] == [x] && [x][1..] == [];
    assert Unapplied([x], {}) == [Label(x)];
  }

  lemma SortTwo(x: string, y: string)
    requires Before(x, y)
    ensures SortStrings([y, x]) == [x, y]
  {
    assert [y, x][1..] == [x] && [x][1..] == [] && [x] + [y] == [x, y];
    AtMostTotal(x, y);
    assert Insert(x, []) == [x];
    assert SortStrings([x]) == [x];
    assert Insert(y, []) == [y];
    assert Insert(y, [x]) == [x] + [y];
  }

  // The repository's own two migrations, neither of them applied.
  lemma BothPending()
    ensures var pages := Migration("20260905080100", "create_pages");
            var posts := Migration("20260905080000", "create_posts");
            SortStrings(Unapplied([pages, posts], {})) == ["20260905080000_create_posts", "20260905080100_create_pages"]
  {
    var pages := Migration("20260905080100", "create_pages");
    var posts := Migration("20260905080000", "create_posts");
    TwoUnapplied(posts, pages);
    var x, y := "20260905080000_create_posts", "20260905080100_create_pages";
    assert Label(posts) == x && Label(pages) == y;
    FirstDifference(x, y, 11);
    SortTwo(x, y);
  }

  lemma {:induction false} NonePendingIff(migrations: seq<Migration>, applied: set<Version>)
    ensures Unapplied(migrations, applied) == [] <==> forall m :: m in migrations ==> m.version in applied
  {
    if migrations != [] {
      NonePendingIff(migrations[1..], applied);
      assert migrations[0] in migrations;
      assert forall m :: m in migrations ==> m == migrations[0] || m in migrations[1..];
    }
  }
}
