/** The audit's sweep for one address in several live accounts. */
module EmailAudit {
  import opened Wrappers
  import opened PreupgradeAudit
  import Text

  /** A live account: its printed id, the address as the database compares it, and
      the printed id of its organization. */
  datatype UserRow = UserRow(id: string, key: string, org: Option<string>)

  // ---------------------------------------------------------- Specification

  /** The rows with address `k`, in order. */
  function Group(rows: seq<UserRow>, k: string): seq<UserRow> {
    if rows == [] then []
    else
      var last := rows[|rows| - 1];
      Group(rows[..|rows| - 1], k) + if last.key == k then [last] else []
  }

  /** The addresses, in order of first appearance. */
  function KeysOf(rows: seq<UserRow>): seq<string> {
    if rows == [] then []
    else
      var front, k := KeysOf(rows[..|rows| - 1]), rows[|rows| - 1].key;
      if k in front then front else front + [k]
  }

  function OrgText(r: UserRow): string {
    if r.org.Some? then r.org.value else "none"
  }

  function Ids(rows: seq<UserRow>): seq<string> {
    seq(|rows|, i requires 0 <= i < |rows| => rows[i].id)
  }

  function Orgs(rows: seq<UserRow>): seq<string> {
    seq(|rows|, i requires 0 <= i < |rows| => OrgText(rows[i]))
  }

  /** One line: the group's user ids and organization ids, in row order. */
  function Line(group: seq<UserRow>): string {
    "user ids " + Text.Join(Ids(group), ", ") + "; organization ids " + Text.Join(Orgs(group), ", ")
  }

  function LinesFor(rows: seq<UserRow>, keys: seq<string>): seq<string> {
    if keys == [] then []
    else
      var group := Group(rows, keys[|keys| - 1]);
      LinesFor(rows, keys[..|keys| - 1]) + if |group| < 2 then [] else [Line(group)]
  }

  function Details(rows: seq<UserRow>): seq<string> {
    LinesFor(rows, KeysOf(rows))
  }

  // -------------------------------------------------------------- The sweep

  /** The map and key list after a prefix of the rows. */
  ghost predicate Grouped(rows: seq<UserRow>, groups: map<string, seq<UserRow>>, keys: seq<string>) {
    && keys == KeysOf(rows)
    && (forall k :: k in groups <==> k in keys)
    && (forall k :: k in groups ==> groups[k] == Group(rows, k))
  }

  lemma {:induction false} GroupOfNew(rows: seq<UserRow>, k: string)
    ensures k !in KeysOf(rows) <==> Group(rows, k) == []
  {
    if rows != [] {
      GroupOfNew(rows[..|rows| - 1], k);
    }
  }

  lemma GroupedNext(rows: seq<UserRow>, i: nat, groups: map<string, seq<UserRow>>, keys: seq<string>)
    requires i < |rows| && Grouped(rows[..i], groups, keys)
    ensures var r := rows[i];
            var seen := if r.key in groups then groups[r.key] else [];
            Grouped(rows[..i + 1], groups[r.key := seen + [r]], if r.key in groups then keys else keys + [r.key])
  {
    assert rows[..i + 1][..i] == rows[..i];
    GroupOfNew(rows[..i], rows[i].key);
  }

  method PrintGroup(group: seq<UserRow>) returns (line: string)
    ensures line == Line(group)
  {
    var users, orgs := [], [];
    for i := 0 to |group|
      invariant users == Ids(group[..i]) && orgs == Orgs(group[..i])
    {
      users := users + [group[i].id];
      var org := "none";
      if group[i].org.Some? {
        org := group[i].org.value;
      }
      orgs := orgs + [org];
    }
    assert group[..|group|] == group;
    line := "user ids " + Text.Join(users, ", ") + "; organization ids " + Text.Join(orgs, ", ");
  }

  /** The lines of the groups with two or more rows. */
  method PrintGroups(ghost rows: seq<UserRow>, groups: map<string, seq<UserRow>>, keys: seq<string>)
    returns (details: seq<string>)
    requires Grouped(rows, groups, keys)
    ensures details == LinesFor(rows, keys)
  {
    details := [];
    for i := 0 to |keys|
      invariant details == LinesFor(rows, keys[..i])
    {
      assert keys[..i + 1][..i] == keys[..i];
      var group := groups[keys[i]];
      if |group| >= 2 {
        var line := PrintGroup(group);
        details := details + [line];
      }
    }
    assert keys[..|keys|] == keys;
  }

  /** `evaluateAuditEmailDuplicates`. */
  method EvaluateEmailDuplicates(rows: seq<UserRow>) returns (findings: seq<Finding>, details: seq<string>)
    ensures details == Details(rows)
    ensures findings == if details == [] then [] else [Finding(SharedAddress, |details|)]
  {
    var groups: map<string, seq<UserRow>> := map[];
    var keys: seq<string> := [];
    for i := 0 to |rows|
      invariant Grouped(rows[..i], groups, keys)
    {
      GroupedNext(rows, i, groups, keys);
      var r := rows[i];
      if r.key !in groups {
        keys := keys + [r.key];
        groups := groups[r.key := [r]];
      } else {
        groups := groups[r.key := groups[r.key] + [r]];
      }
    }
    assert rows[..|rows|] == rows;
    details := PrintGroups(rows, groups, keys);
    findings := NonZero([Finding(SharedAddress, |details|)]);
    OneFinding(|details|);
  }

  lemma OneFinding(n: nat)
    ensures Positive([Finding(SharedAddress, n)]) == if n == 0 then [] else [Finding(SharedAddress, n)]
  {
  }

  // ------------------------------------------------------ What it amounts to

  predicate Shared(rows: seq<UserRow>, k: string) {
    |Group(rows, k)| >= 2
  }

  predicate Distinct(keys: seq<string>) {
    forall i, j :: 0 <= i < j < |keys| ==> keys[i] != keys[j]
  }

  lemma {:induction false} KeysDistinct(rows: seq<UserRow>)
    ensures Distinct(KeysOf(rows))
  {
    if rows != [] {
      KeysDistinct(rows[..|rows| - 1]);
    }
  }

  function SharedAmong(rows: seq<UserRow>, keys: seq<string>): set<string> {
    set k | k in keys && Shared(rows, k)
  }

  lemma SharedNext(rows: seq<UserRow>, front: seq<string>, last: string)
    requires last !in front
    ensures last !in SharedAmong(rows, front)
    ensures SharedAmong(rows, front + [last])
         == if Shared(rows, last) then SharedAmong(rows, front) + {last} else SharedAmong(rows, front)
  {
  }

  lemma {:induction false} LineCount(rows: seq<UserRow>, keys: seq<string>)
    requires Distinct(keys)
    ensures |LinesFor(rows, keys)| == |SharedAmong(rows, keys)|
  {
    if keys != [] {
      var front, last := keys[..|keys| - 1], keys[|keys| - 1];
      LineCount(rows, front);
      assert keys == front + [last];
      SharedNext(rows, front, last);
    }
  }

  /** As many lines as there are addresses with two or more rows. */
  lemma OneLinePerSharedAddress(rows: seq<UserRow>)
    ensures |Details(rows)| == |set r | r in rows && Shared(rows, r.key) :: r.key|
  {
    KeysDistinct(rows);
    LineCount(rows, KeysOf(rows));
    forall k
      ensures k in KeysOf(rows) <==> exists r :: r in rows && r.key == k
    {
      KeyPresent(rows, k);
    }
    assert SharedAmong(rows, KeysOf(rows)) == set r | r in rows && Shared(rows, r.key) :: r.key;
  }

  lemma {:induction false} KeyPresent(rows: seq<UserRow>, k: string)
    ensures k in KeysOf(rows) <==> exists r :: r in rows && r.key == k
  {
    if rows != [] {
      var front, last := rows[..|rows| - 1], rows[|rows| - 1];
      KeyPresent(front, k);
      assert rows == front + [last];
    }
  }

  predicate AddressesDistinct(rows: seq<UserRow>) {
    forall i, j :: 0 <= i < j < |rows| ==> rows[i].key != rows[j].key
  }

  function Positions(rows: seq<UserRow>, k: string): set<int> {
    set i | 0 <= i < |rows| && rows[i].key == k
  }

  lemma PositionsNext(rows: seq<UserRow>, k: string)
    requires rows != []
    ensures var last := |rows| - 1;
            var before := Positions(rows[..last], k);
            && last !in before
            && Positions(rows, k) == if rows[last].key == k then before + {last} else before
  {
  }

  lemma {:induction false} GroupCounts(rows: seq<UserRow>, k: string)
    ensures |Group(rows, k)| == |Positions(rows, k)|
  {
    if rows != [] {
      GroupCounts(rows[..|rows| - 1], k);
      PositionsNext(rows, k);
    }
  }

  /** An address is shared exactly when two rows have it. */
  lemma SharedMeansTwoRows(rows: seq<UserRow>, k: string)
    ensures Shared(rows, k) <==> exists i, j :: 0 <= i < j < |rows| && rows[i].key == k && rows[j].key == k
  {
    GroupCounts(rows, k);
    var at := Positions(rows, k);
    if Shared(rows, k) {
      var i :| i in at;
      assert |at - {i}| >= 1;
      var j :| j in at - {i};
      var lo, hi := if i < j then i else j, if i < j then j else i;
      assert 0 <= lo < hi < |rows| && rows[lo].key == k && rows[hi].key == k;
    }
    if i, j :| 0 <= i < j < |rows| && rows[i].key == k && rows[j].key == k {
      assert at == (at - {i, j}) + {i, j};
    }
  }

  /** Nothing is reported exactly when all addresses are distinct. */
  lemma SilentWhenDistinct(rows: seq<UserRow>)
    ensures Details(rows) == [] <==> AddressesDistinct(rows)
  {
    OneLinePerSharedAddress(rows);
    var shared := set r | r in rows && Shared(rows, r.key) :: r.key;
    if Details(rows) == [] {
      forall i, j | 0 <= i < j < |rows|
        ensures rows[i].key != rows[j].key
      {
        SharedMeansTwoRows(rows, rows[i].key);
        assert rows[i] in rows && rows[i].key !in shared;
      }
    } else {
      var k :| k in shared;
      SharedMeansTwoRows(rows, k);
    }
  }

  // -------------------------------------------------------- Never the address

  function Rename(rows: seq<UserRow>, f: string -> string): (out: seq<UserRow>)
    ensures |out| == |rows|
    ensures forall i :: 0 <= i < |rows| ==> out[i] == rows[i].(key := f(rows[i].key))
  {
    seq(|rows|, i requires 0 <= i < |rows| => rows[i].(key := f(rows[i].key)))
  }

  ghost predicate Injective(f: string -> string) {
    forall a, b :: f(a) == f(b) ==> a == b
  }

  lemma RenamedLine(group: seq<UserRow>, f: string -> string)
    ensures Line(Rename(group, f)) == Line(group)
  {
    assert Ids(Rename(group, f)) == Ids(group);
    assert Orgs(Rename(group, f)) == Orgs(group);
  }

  lemma {:induction false} RenamedGroup(rows: seq<UserRow>, f: string -> string, k: string)
    requires Injective(f)
    ensures Group(Rename(rows, f), f(k)) == Rename(Group(rows, k), f)
  {
    if rows != [] {
      var front := rows[..|rows| - 1];
      RenamedGroup(front, f, k);
      assert Rename(rows, f)[..|rows| - 1] == Rename(front, f);
    }
  }

  lemma {:induction false} RenamedKeys(rows: seq<UserRow>, f: string -> string)
    requires Injective(f)
    ensures KeysOf(Rename(rows, f)) == Text.Map(KeysOf(rows), f)
  {
    if rows != [] {
      var front, k := rows[..|rows| - 1], rows[|rows| - 1].key;
      RenamedKeys(front, f);
      assert Rename(rows, f)[..|rows| - 1] == Rename(front, f);
      RenamedMember(KeysOf(front), f, k);
    }
  }

  lemma RenamedMember(keys: seq<string>, f: string -> string, k: string)
    requires Injective(f)
    ensures f(k) in Text.Map(keys, f) <==> k in keys
  {
  }

  lemma {:induction false} RenamedLines(rows: seq<UserRow>, keys: seq<string>, f: string -> string)
    requires Injective(f)
    ensures LinesFor(Rename(rows, f), Text.Map(keys, f)) == LinesFor(rows, keys)
  {
    if keys != [] {
      var front, k := keys[..|keys| - 1], keys[|keys| - 1];
      RenamedLines(rows, front, f);
      assert Text.Map(keys, f)[..|keys| - 1] == Text.Map(front, f);
      RenamedGroup(rows, f, k);
      RenamedLine(Group(rows, k), f);
    }
  }

  /** The report never shows an address: it depends only on which rows share one,
      so replacing every address by another, differently for different ones,
      prints the same lines. */
  lemma AddressesNeverShown(rows: seq<UserRow>, f: string -> string)
    requires Injective(f)
    ensures Details(Rename(rows, f)) == Details(rows)
  {
    RenamedKeys(rows, f);
    RenamedLines(rows, KeysOf(rows), f);
  }

  /** The line of two accounts, spelled out. */
  lemma LineOfTwo(a: UserRow, b: UserRow)
    requires a.org.Some? && b.org.None?
    ensures Line([a, b]) == "user ids " + (a.id + ", " + b.id) + "; organization ids " + (a.org.value + ", " + "none")
  {
    assert Ids([a, b]) == [a.id, b.id];
    assert Orgs([a, b]) == [a.org.value, "none"];
    JoinTwo(a.id, b.id);
    JoinTwo(a.org.value, "none");
  }

  lemma JoinTwo(x: string, y: string)
    ensures Text.Join([x, y], ", ") == x + ", " + y
  {
    assert [x, y][1..] == [y];
  }
}
