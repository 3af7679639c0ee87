/** The records database of `DNSProxy`: how `loadDB` reads a records-file
    line (server.php:141-152), the insertion-ordered PHP array it stores
    entries in, and the first-match `lookup` over it (server.php:160-167). */
module Records {
  import opened Base
  import opened Patterns
  import Addresses

  // ----- One line of the records file -----

  /** The characters PHP's `trim` strips by default: space, tab, newline,
      carriage return, NUL and vertical tab. */
  predicate IsTrimmed(c: char)
  {
    c == ' ' || c == '\t' || c == '\n' || c == '\r' || c as int == 0 || c as int == 11
  }

  /** PCRE's `\s`: space, tab, newline, vertical tab, form feed, carriage
      return. Unlike `trim`, it includes form feed and not NUL. */
  predicate IsSpace(c: char)
  {
    c == ' ' || c == '\t' || c == '\n' || c == '\r' || c as int == 11 || c as int == 12
  }

  predicate NoSpace(s: string)
  {
    forall k :: 0 <= k < |s| ==> !IsSpace(s[k])
  }

  function TrimLeft(s: string): (r: string)
    ensures |r| <= |s| && r == s[|s| - |r|..]
    ensures r == [] || !IsTrimmed(r[0])
    ensures forall k :: 0 <= k < |s| - |r| ==> IsTrimmed(s[k])
  {
    if s != [] && IsTrimmed(s[0]) then
      var r := TrimLeft(s[1..]);
      assert s[1..][|s| - 1 - |r|..] == s[|s| - |r|..];
      r
    else s
  }

  function TrimRight(s: string): (r: string)
    ensures r <= s
    ensures r == [] || !IsTrimmed(r[|r| - 1])
    ensures forall k :: |r| <= k < |s| ==> IsTrimmed(s[k])
  {
    if s != [] && IsTrimmed(s[|s| - 1]) then TrimRight(s[..|s| - 1]) else s
  }

  /** PHP's `trim(s)`. */
  function Trim(s: string): (r: string)
    ensures |r| <= |s|
    ensures r == [] || (!IsTrimmed(r[0]) && !IsTrimmed(r[|r| - 1]))
  {
    TrimRight(TrimLeft(s))
  }

  function DropSpaces(s: string): (r: string)
    ensures |r| <= |s|
    ensures r == [] || !IsSpace(r[0])
  {
    if s != [] && IsSpace(s[0]) then DropSpaces(s[1..]) else s
  }

  /** A text that starts with whitespace is its leading whitespace run
      followed by what `DropSpaces` keeps. */
  lemma {:induction false} RunThenRest(s: string)
    requires s != []
    ensures var r := DropSpaces(s[1..]); s[..|s| - |r|] + r == s
  {
    var r := DropSpaces(s[1..]);
    var n := |s| - |r|;
    DropSpacesSuffix(s[1..]);
    assert r == s[n..] by {
      assert s[1..][n - 1..] == s[n..];
    }
    assert s[..n] + s[n..] == s;
  }

  /** What `DropSpaces` keeps is a suffix of its input. */
  lemma {:induction false} DropSpacesSuffix(s: string)
    ensures DropSpaces(s) == s[|s| - |DropSpaces(s)|..]
    decreases |s|
  {
    if s != [] && IsSpace(s[0]) {
      var r := DropSpaces(s[1..]);
      DropSpacesSuffix(s[1..]);
      assert s[1..][|s| - 1 - |r|..] == s[|s| - |r|..];
    }
  }

  /** PHP's `preg_split('/\s+/', s)`: the pieces between maximal runs of
      whitespace, with an empty first (last) piece when `s` starts (ends)
      with whitespace. */
  function Split(s: string): (fields: seq<string>)
    ensures |fields| >= 1
    ensures forall k :: 0 <= k < |fields| ==> NoSpace(fields[k])
    decreases |s|
  {
    if s == [] then [""]
    else if IsSpace(s[0]) then [""] + Split(DropSpaces(s[1..]))
    else var rest := Split(s[1..]); [[s[0]] + rest[0]] + rest[1..]
  }

  predicate AllSpace(g: string)
  {
    forall k :: 0 <= k < |g| ==> IsSpace(g[k])
  }

  /** The whitespace runs that `Split` cuts at, in order. */
  function Gaps(s: string): seq<string>
    decreases |s|
  {
    if s == [] then []
    else if IsSpace(s[0]) then
      var r := DropSpaces(s[1..]);
      [s[..|s| - |r|]] + Gaps(r)
    else Gaps(s[1..])
  }

  /** The fields with the gaps between them put back. */
  function Interleave(fields: seq<string>, gaps: seq<string>): string
    requires |fields| == |gaps| + 1
    decreases |gaps|
  {
    if gaps == [] then fields[0] else fields[0] + gaps[0] + Interleave(fields[1..], gaps[1..])
  }

  lemma {:induction false} InterleaveCons(c: char, fields: seq<string>, gaps: seq<string>)
    requires |fields| == |gaps| + 1
    ensures Interleave([[c] + fields[0]] + fields[1..], gaps) == [c] + Interleave(fields, gaps)
  {
    var f := [[c] + fields[0]] + fields[1..];
    assert f[0] == [c] + fields[0] && f[1..] == fields[1..];
  }

  /** What `DropSpaces` drops is whitespace. */
  lemma {:induction false} DropSpacesRun(s: string)
    ensures AllSpace(s[..|s| - |DropSpaces(s)|])
    decreases |s|
  {
    if s != [] && IsSpace(s[0]) {
      var r := DropSpaces(s[1..]);
      DropSpacesRun(s[1..]);
      var g := s[..|s| - |r|];
      forall k | 0 < k < |g| ensures IsSpace(g[k]) {
        assert g[k] == s[1..][..|s| - 1 - |r|][k - 1];
      }
    }
  }

  lemma {:induction false} SplitInterleave(s: string)
    ensures |Split(s)| == |Gaps(s)| + 1
    ensures Interleave(Split(s), Gaps(s)) == s
    decreases |s|
  {
    if s != [] && IsSpace(s[0]) {
      SplitInterleave(DropSpaces(s[1..]));
      InterleaveAtSpace(s);
    } else if s != [] {
      SplitInterleave(s[1..]);
      InterleaveAtField(s);
    }
  }

  lemma {:induction false} InterleaveAtSpace(s: string)
    requires s != [] && IsSpace(s[0])
    requires var r := DropSpaces(s[1..]);
      |Split(r)| == |Gaps(r)| + 1 && Interleave(Split(r), Gaps(r)) == r
    ensures |Split(s)| == |Gaps(s)| + 1
    ensures Interleave(Split(s), Gaps(s)) == s
  {
    var r := DropSpaces(s[1..]);
    var g := s[..|s| - |r|];
    assert Split(s) == [""] + Split(r);
    GapsAtSpace(s);
    RunThenRest(s);
    InterleaveFront(Split(r), Gaps(r), g, r, s);
  }

  lemma {:induction false} GapsAtSpace(s: string)
    requires s != [] && IsSpace(s[0])
    ensures var r := DropSpaces(s[1..]); Gaps(s) == [s[..|s| - |r|]] + Gaps(r)
  {
  }

  lemma {:induction false} InterleaveAtField(s: string)
    requires s != [] && !IsSpace(s[0])
    requires |Split(s[1..])| == |Gaps(s[1..])| + 1 && Interleave(Split(s[1..]), Gaps(s[1..])) == s[1..]
    ensures |Split(s)| == |Gaps(s)| + 1
    ensures Interleave(Split(s), Gaps(s)) == s
  {
    SplitCons(s[0], s[1..]);
    assert [s[0]] + s[1..] == s;
    assert Gaps(s) == Gaps(s[1..]);
    InterleaveCons(s[0], Split(s[1..]), Gaps(s[1..]));
  }

  lemma {:induction false} InterleaveFront(fields: seq<string>, gaps: seq<string>, g: string, r: string, s: string)
    requires |fields| == |gaps| + 1 && Interleave(fields, gaps) == r && g + r == s
    ensures Interleave([""] + fields, [g] + gaps) == s
  {
    assert ([""] + fields)[1..] == fields && ([g] + gaps)[1..] == gaps;
    assert "" + g == g;
  }

  lemma {:induction false} GapsSpace(s: string)
    ensures forall k :: 0 <= k < |Gaps(s)| ==> Gaps(s)[k] != [] && AllSpace(Gaps(s)[k])
    decreases |s|
  {
    if s == [] {
    } else if IsSpace(s[0]) {
      var r := DropSpaces(s[1..]);
      DropSpacesRun(s);
      GapsSpace(r);
      assert Gaps(s) == [s[..|s| - |r|]] + Gaps(r);
    } else {
      GapsSpace(s[1..]);
    }
  }

  lemma {:induction false} SplitMiddle(s: string)
    ensures forall k :: 0 < k < |Split(s)| - 1 ==> Split(s)[k] != []
    decreases |s|
  {
    if s == [] {
    } else if IsSpace(s[0]) {
      var r := DropSpaces(s[1..]);
      SplitMiddle(r);
      assert Split(s) == [""] + Split(r);
    } else {
      SplitMiddle(s[1..]);
    }
  }

  /** `Split` cuts the text at its maximal whitespace runs and loses nothing:
      the fields, which hold no whitespace, and non-empty whitespace runs
      between them give the text back, and every field but the first and
      the last is non-empty. */
  lemma {:induction false} SplitJoin(s: string)
    ensures |Split(s)| == |Gaps(s)| + 1
    ensures forall k :: 0 <= k < |Gaps(s)| ==> Gaps(s)[k] != [] && AllSpace(Gaps(s)[k])
    ensures forall k :: 0 < k < |Split(s)| - 1 ==> Split(s)[k] != []
    ensures Interleave(Split(s), Gaps(s)) == s
  {
    SplitInterleave(s);
    GapsSpace(s);
    SplitMiddle(s);
  }

  /** The first two fields of a records line: the address text and the
      domain pattern. */
  datatype Record = Record(address: string, domain: string)

  /** What `loadDB` takes from one line: None for a line with fewer than two
      fields; further fields are ignored. */
  function ParseLine(line: string): (r: Option<Record>)
    ensures r.Some? ==> NoSpace(r.value.address) && NoSpace(r.value.domain)
  {
    var fields := Split(Trim(line));
    if |fields| < 2 then None else Some(Record(fields[0], fields[1]))
  }

  lemma {:induction false} SplitSpaceFree(s: string)
    requires NoSpace(s)
    ensures Split(s) == [s]
  {
    if s != [] {
      SplitSpaceFree(s[1..]);
      assert [s[0]] + s[1..] == s;
    }
  }

  /** Splitting finds a second field exactly when there is whitespace. */
  lemma {:induction false} SplitCount(s: string)
    ensures |Split(s)| >= 2 <==> !NoSpace(s)
  {
    if s != [] && !IsSpace(s[0]) {
      SplitCount(s[1..]);
      if !NoSpace(s) {
        var k :| 0 <= k < |s| && IsSpace(s[k]);
        assert s[1..][k - 1] == s[k];
      }
    } else if s != [] {
      assert IsSpace(s[0]);
    }
  }

  lemma {:induction false} SplitAfterSpaceFree(a: string, rest: string)
    requires NoSpace(a) && rest != [] && IsSpace(rest[0])
    ensures Split(a + rest) == [a] + Split(DropSpaces(rest[1..]))
  {
    var t := Split(DropSpaces(rest[1..]));
    if a != [] {
      var x := a[1..] + rest;
      HeadTail(a, rest);
      assert NoSpace(a[1..]) by {
        forall k | 0 <= k < |a| - 1 ensures !IsSpace(a[1..][k]) {
          assert a[1..][k] == a[k + 1];
        }
      }
      SplitAfterSpaceFree(a[1..], rest);
      SplitCons(a[0], x);
      var sx := Split(x);
      assert sx == [a[1..]] + t;
      assert sx[0] == a[1..] && sx[1..] == t;
      assert [a[0]] + a[1..] == a;
    } else {
      assert a + rest == rest;
    }
  }

  lemma HeadTail<T>(a: seq<T>, b: seq<T>)
    requires a != []
    ensures a + b == [a[0]] + (a[1..] + b)
  {
  }

  lemma SplitCons(c: char, s: string)
    requires !IsSpace(c)
    ensures Split([c] + s) == [[c] + Split(s)[0]] + Split(s)[1..]
  {
    assert ([c] + s)[1..] == s;
  }

  /** Text that neither `trim` nor the split touches: no whitespace, no NUL. */
  predicate IsField(s: string)
  {
    s != [] && NoSpace(s) && forall k :: 0 <= k < |s| ==> s[k] as int != 0
  }

  /** Property: a line `<address> <pattern>` yields those two fields. */
  lemma ParseTwoFields(address: string, domain: string)
    requires IsField(address) && IsField(domain)
    ensures ParseLine(address + " " + domain) == Some(Record(address, domain))
  {
    var line := address + " " + domain;
    assert !IsTrimmed(line[0]) && !IsTrimmed(line[|line| - 1]);
    assert TrimLeft(line) == line;
    assert Trim(line) == line;
    assert line == address + (" " + domain);
    SplitTwo(address, domain);
  }

  /** Trailing trimmed characters are stripped only from the end. */
  lemma {:induction false} TrimRightSuffix(x: string, y: string)
    requires x != [] && !IsTrimmed(x[|x| - 1])
    ensures TrimRight(x + y) == x + TrimRight(y)
    decreases |y|
  {
    if y != [] && IsTrimmed(y[|y| - 1]) {
      var y' := y[..|y| - 1];
      assert (x + y)[..|x + y| - 1] == x + y';
      TrimRightSuffix(x, y');
    } else if y == [] {
      assert x + y == x;
    }
  }

  /** Property: whatever follows the second field after whitespace (further
      fields, trailing whitespace) is ignored. */
  lemma ParseIgnoresExtraFields(address: string, domain: string, tail: string)
    requires IsField(address) && IsField(domain) && tail != [] && IsSpace(tail[0])
    ensures ParseLine(address + " " + domain + tail) == Some(Record(address, domain))
  {
    var head := address + " " + domain;
    var line := head + tail;
    assert line[0] == address[0];
    assert TrimLeft(line) == line;
    assert head[|head| - 1] == domain[|domain| - 1];
    TrimRightSuffix(head, tail);
    var t := TrimRight(tail);
    if t == [] {
      assert Trim(line) == address + (" " + domain);
      SplitTwo(address, domain);
    } else {
      assert t[0] == tail[0];
      assert Trim(line) == address + (" " + (domain + t));
      SplitThree(address, domain, t);
    }
  }

  lemma SplitTwo(address: string, domain: string)
    requires IsField(address) && IsField(domain)
    ensures Split(address + (" " + domain)) == [address, domain]
  {
    var rest := " " + domain;
    SplitAfterSpaceFree(address, rest);
    assert rest[1..] == domain;
    assert DropSpaces(domain) == domain;
    SplitSpaceFree(domain);
  }

  lemma SplitThree(address: string, domain: string, tail: string)
    requires IsField(address) && IsField(domain) && tail != [] && IsSpace(tail[0])
    ensures var fields := Split(address + (" " + (domain + tail)));
      |fields| >= 2 && fields[0] == address && fields[1] == domain
  {
    var second := domain + tail;
    var rest := " " + second;
    assert rest[1..] == second;
    assert DropSpaces(second) == second by {
      assert second[0] == domain[0];
    }
    SplitAfterSpaceFree(address, rest);
    SplitAfterSpaceFree(domain, tail);
  }

  /** Property: a line is skipped exactly when, once trimmed, it holds no
      whitespace that separates a second field. */
  lemma SkippedLines(line: string)
    ensures ParseLine(line) == None <==> NoSpace(Trim(line))
  {
    SplitCount(Trim(line));
  }

  // ----- The database: an insertion-ordered map from pattern to address -----

  datatype Entry = Entry(key: Pattern, address: Address)

  type Db = seq<Entry>

  function Keys(db: Db): (ks: seq<Pattern>)
    ensures |ks| == |db|
    ensures forall i :: 0 <= i < |db| ==> ks[i] == db[i].key
  {
    if db == [] then [] else [db[0].key] + Keys(db[1..])
  }

  /** A PHP array has each key at most once. */
  ghost predicate UniqueKeys(db: Db)
  {
    forall i, j :: 0 <= i < j < |db| ==> db[i].key != db[j].key
  }

  /** `$db[key]`, None when the key is absent. */
  function Find(db: Db, key: Pattern): (r: Option<Address>)
    ensures r.None? <==> key !in Keys(db)
  {
    if db == [] then None
    else if db[0].key == key then Some(db[0].address)
    else Find(db[1..], key)
  }

  lemma {:induction false} FindAt(db: Db, i: nat)
    requires UniqueKeys(db) && i < |db|
    ensures Find(db, db[i].key) == Some(db[i].address)
  {
    if i > 0 {
      assert db[0].key != db[i].key;
      FindAt(db[1..], i - 1);
    }
  }

  /** `$db[key] = address`: a present key keeps its position and takes the
      new address, an absent key is appended. */
  function Put(db: Db, key: Pattern, address: Address): (r: Db)
    ensures Keys(r) == if key in Keys(db) then Keys(db) else Keys(db) + [key]
    ensures forall k :: Find(r, k) == if k == key then Some(address) else Find(db, k)
  {
    if db == [] then [Entry(key, address)]
    else if db[0].key == key then [Entry(key, address)] + db[1..]
    else [db[0]] + Put(db[1..], key, address)
  }

  /** Assigning into a PHP array keeps its keys distinct. */
  lemma PutUnique(db: Db, key: Pattern, address: Address)
    ensures UniqueKeys(db) ==> UniqueKeys(Put(db, key, address))
  {
    var r := Put(db, key, address);
    forall i, j | UniqueKeys(db) && 0 <= i < j < |r| ensures r[i].key != r[j].key {
      assert r[i].key == Keys(r)[i] && r[j].key == Keys(r)[j];
      if key in Keys(db) {
        assert Keys(db)[i] == db[i].key && Keys(db)[j] == db[j].key;
      } else if j < |db| {
        assert Keys(db)[i] == db[i].key && Keys(db)[j] == db[j].key;
      } else {
        assert Keys(db)[i] == db[i].key;
      }
    }
  }

  /** The key a line defines, if it is not skipped. */
  function LineKey(line: string): Option<Pattern>
  {
    match ParseLine(line)
    case None => None
    case Some(rec) => Some(Compile(rec.domain))
  }

  /** The effect of one records line on the database. */
  function Apply(db: Db, line: string): (r: Db)
    ensures |db| <= |r| <= |db| + 1
  {
    match ParseLine(line)
    case None => db
    case Some(rec) => Put(db, Compile(rec.domain), Addresses.IP2Bytes(rec.address))
  }

  /** One line keeps the keys distinct. */
  lemma ApplyUnique(db: Db, line: string)
    requires UniqueKeys(db)
    ensures UniqueKeys(Apply(db, line))
  {
    if ParseLine(line).Some? {
      var rec := ParseLine(line).value;
      PutUnique(db, Compile(rec.domain), Addresses.IP2Bytes(rec.address));
    }
  }

  /** The database after `loadDB` has run through `lines` over `db`. */
  function Merge(db: Db, lines: seq<string>): (r: Db)
    ensures |db| <= |r| <= |db| + |lines|
  {
    if lines == [] then db else Apply(Merge(db, lines[..|lines| - 1]), lines[|lines| - 1])
  }

  /** What one line does to the database: an assignment of its compiled
      pattern when it parses as `rec`, nothing when it does not parse. */
  lemma ApplyRecord(db: Db, line: string, rec: Record)
    requires ParseLine(line) == Some(rec)
    ensures Apply(db, line) == Put(db, Compile(rec.domain), Addresses.IP2Bytes(rec.address))
  {
  }

  lemma ApplySkip(db: Db, line: string)
    requires ParseLine(line).None?
    ensures Apply(db, line) == db
  {
  }

  /** Reading one more line of the file. */
  lemma MergeSnoc(db: Db, lines: seq<string>, i: nat)
    requires i < |lines|
    ensures Merge(db, lines[..i + 1]) == Apply(Merge(db, lines[..i]), lines[i])
  {
    assert lines[..i + 1][..i] == lines[..i];
  }

  /** Counting one more line of the file. */
  lemma CountSnoc(lines: seq<string>, i: nat, parsed: bool)
    requires i < |lines| && parsed == ParseLine(lines[i]).Some?
    ensures ValidCount(lines[..i + 1]) == ValidCount(lines[..i]) + if parsed then 1 else 0
  {
    assert lines[..i + 1][..i] == lines[..i];
  }

  /** The number of lines `loadDB` counts as valid. */
  function ValidCount(lines: seq<string>): (n: nat)
    ensures n <= |lines|
  {
    if lines == [] then 0
    else ValidCount(lines[..|lines| - 1]) + (if ParseLine(lines[|lines| - 1]).Some? then 1 else 0)
  }

  /** The address of the last line of `lines` that defines `key`. */
  function LastFor(lines: seq<string>, key: Pattern): Option<Address>
  {
    if lines == [] then None
    else
      var line := lines[|lines| - 1];
      if LineKey(line) == Some(key) then Some(Addresses.IP2Bytes(ParseLine(line).value.address))
      else LastFor(lines[..|lines| - 1], key)
  }

  lemma MergeOne(line: string)
    ensures Merge([], [line]) == Apply([], line)
  {
    assert [line][..0] == [];
  }

  lemma MergeTwo(db: Db, l1: string, l2: string)
    ensures Merge(db, [l1, l2]) == Apply(Apply(db, l1), l2)
  {
    var lines := [l1, l2];
    assert lines[..1] == [l1] && [l1][..0] == [];
    assert Merge(db, [l1]) == Apply(Merge(db, []), l1);
    assert Merge(db, lines) == Apply(Merge(db, [l1]), l2);
  }

  /** Property: a pattern given again on a later line keeps the place of its
      first line and takes the address of the later one: the lines
      `a1 x`, `a2 y`, `a3 x` over an empty database give the entries for
      `x` (address `a3`) and then `y` (address `a2`). */
  lemma DuplicateKeepsFirstPosition(l1: string, l2: string, l3: string, a1: string, a2: string, a3: string, x: string, y: string)
    requires x != y
    requires ParseLine(l1) == Some(Record(a1, x))
    requires ParseLine(l2) == Some(Record(a2, y))
    requires ParseLine(l3) == Some(Record(a3, x))
    ensures Merge([], [l1, l2, l3]) ==
      [Entry(Compile(x), Addresses.IP2Bytes(a3)), Entry(Compile(y), Addresses.IP2Bytes(a2))]
  {
    var kx, ky := Compile(x), Compile(y);
    if kx == ky {
      CompileInjective(x, y);
    }
    var v1, v2, v3 := Addresses.IP2Bytes(a1), Addresses.IP2Bytes(a2), Addresses.IP2Bytes(a3);
    MergeThree([], l1, l2, l3);
    ApplyRecord([], l1, Record(a1, x));
    ApplyRecord(Put([], kx, v1), l2, Record(a2, y));
    ApplyRecord(Put(Put([], kx, v1), ky, v2), l3, Record(a3, x));
    PutAgain(kx, ky, v1, v2, v3);
  }

  lemma MergeThree(db: Db, l1: string, l2: string, l3: string)
    ensures Merge(db, [l1, l2, l3]) == Apply(Apply(Apply(db, l1), l2), l3)
  {
    Front([l1, l2, l3], [l1, l2], l3);
    MergeTwo(db, l1, l2);
  }

  /** Assigning `kx`, then `ky`, then `kx` again into an empty array. */
  lemma PutAgain(kx: Pattern, ky: Pattern, v1: Address, v2: Address, v3: Address)
    requires kx != ky
    ensures Put(Put(Put([], kx, v1), ky, v2), kx, v3) == [Entry(kx, v3), Entry(ky, v2)]
  {
    var one := [Entry(kx, v1)];
    var two := [Entry(kx, v1), Entry(ky, v2)];
    assert Put(one, ky, v2) == [one[0]] + Put([], ky, v2);
    assert Put(two, kx, v3) == [Entry(kx, v3)] + two[1..];
  }

  lemma Front<T>(s: seq<T>, init: seq<T>, last: T)
    requires s == init + [last]
    ensures s[..|s| - 1] == init && s[|s| - 1] == last
  {
  }

  /** Some line of `lines` defines `key`. */
  ghost predicate Defines(lines: seq<string>, key: Pattern)
  {
    lines != [] && (LineKey(lines[|lines| - 1]) == Some(key) || Defines(lines[..|lines| - 1], key))
  }

  /** Property: a reload only ever adds: the entries present before keep their
      keys and positions, and the keys afterwards are the old ones and those
      of the lines read. Keys stay unique. */
  lemma {:induction false} MergeKeys(db: Db, lines: seq<string>)
    requires UniqueKeys(db)
    ensures UniqueKeys(Merge(db, lines))
    ensures Keys(db) <= Keys(Merge(db, lines))
    ensures forall k :: k in Keys(Merge(db, lines)) <==> k in Keys(db) || Defines(lines, k)
  {
    if lines != [] {
      var init := lines[..|lines| - 1];
      var line := lines[|lines| - 1];
      MergeKeys(db, init);
      var before := Merge(db, init);
      assert Merge(db, lines) == Apply(before, line);
      ApplyKeys(before, line);
      ApplyUnique(before, line);
      forall k ensures k in Keys(Merge(db, lines)) <==> k in Keys(db) || Defines(lines, k) {
        assert Defines(lines, k) <==> LineKey(line) == Some(k) || Defines(init, k);
      }
    }
  }

  lemma ApplyKeys(db: Db, line: string)
    ensures Keys(db) <= Keys(Apply(db, line))
    ensures forall k :: k in Keys(Apply(db, line)) <==> k in Keys(db) || LineKey(line) == Some(k)
  {
    var ks := Keys(db);
    if LineKey(line).Some? && LineKey(line).value !in ks {
      var key := LineKey(line).value;
      assert Keys(Apply(db, line)) == ks + [key];
      assert forall k :: k in ks + [key] <==> k in ks || k == key;
    }
  }

  /** The keys the lines define, in line order, repeats included. */
  function LineKeys(lines: seq<string>): (ks: seq<Pattern>)
    ensures forall k :: k in ks <==> Defines(lines, k)
  {
    if lines == [] then []
    else
      var init := LineKeys(lines[..|lines| - 1]);
      match LineKey(lines[|lines| - 1])
      case None => init
      case Some(k) => init + [k]
  }

  /** The keys of `ks` that are not in `known`, each kept at its first
      occurrence only. */
  function Fresh(known: seq<Pattern>, ks: seq<Pattern>): (r: seq<Pattern>)
    ensures forall k :: k in r <==> k in ks && k !in known
  {
    if ks == [] then []
    else
      var k := ks[|ks| - 1];
      var init := ks[..|ks| - 1];
      assert forall x :: x in ks <==> x in init || x == k;
      Fresh(known, init) + if k in known || k in init then [] else [k]
  }

  /** Property: the count `loadDB` reports is the number of lines that
      define a key, repeats included; it is zero exactly when every line is
      skipped. */
  lemma ValidCountKeys(lines: seq<string>)
    ensures ValidCount(lines) == |LineKeys(lines)|
    ensures ValidCount(lines) == 0 <==> forall i :: 0 <= i < |lines| ==> ParseLine(lines[i]).None?
  {
    CountIsKeys(lines);
    CountZero(lines);
  }

  lemma {:induction false} CountIsKeys(lines: seq<string>)
    ensures ValidCount(lines) == |LineKeys(lines)|
  {
    if lines != [] {
      CountIsKeys(lines[..|lines| - 1]);
    }
  }

  lemma {:induction false} CountZero(lines: seq<string>)
    ensures ValidCount(lines) == 0 <==> forall i :: 0 <= i < |lines| ==> ParseLine(lines[i]).None?
  {
    if lines != [] {
      var init := lines[..|lines| - 1];
      var last := lines[|lines| - 1];
      CountZero(init);
      SkippedSnoc(init, last, lines);
      assert ValidCount(lines) == ValidCount(init) + if ParseLine(last).Some? then 1 else 0;
    }
  }

  lemma SkippedSnoc(init: seq<string>, last: string, lines: seq<string>)
    requires lines == init + [last]
    ensures (forall i :: 0 <= i < |lines| ==> ParseLine(lines[i]).None?) <==>
      (forall i :: 0 <= i < |init| ==> ParseLine(init[i]).None?) && ParseLine(last).None?
  {
    assert forall i :: 0 <= i < |init| ==> lines[i] == init[i];
    assert lines[|init|] == last;
  }

  /** Property: the order of the keys after a reload: the old keys in their
      places, then the keys the lines define that were not there yet, in
      the order of the line that first defines each. */
  lemma {:induction false} MergeOrder(db: Db, lines: seq<string>)
    ensures Keys(Merge(db, lines)) == Keys(db) + Fresh(Keys(db), LineKeys(lines))
  {
    if lines != [] {
      var init := lines[..|lines| - 1];
      var line := lines[|lines| - 1];
      MergeOrder(db, init);
      match ParseLine(line)
      case None =>
        assert LineKeys(lines) == LineKeys(init);
      case Some(rec) =>
        var k, v := Compile(rec.domain), Addresses.IP2Bytes(rec.address);
        ApplyRecord(Merge(db, init), line, rec);
        assert LineKeys(lines) == LineKeys(init) + [k];
        OrderStep(Merge(db, init), Keys(db), LineKeys(init), k, v);
    }
  }

  /** One more defined key extends the order as `Fresh` says. */
  lemma OrderStep(before: Db, known: seq<Pattern>, ks: seq<Pattern>, k: Pattern, v: Address)
    requires Keys(before) == known + Fresh(known, ks)
    ensures Keys(Put(before, k, v)) == known + Fresh(known, ks + [k])
  {
    var r := Fresh(known, ks);
    FreshSnoc(known, ks, k);
    if k in known || k in ks {
      assert k in Keys(before);
      assert Fresh(known, ks + [k]) == r + [];
    } else {
      assert k !in Keys(before);
      assert known + (r + [k]) == (known + r) + [k];
    }
  }

  lemma FreshSnoc(known: seq<Pattern>, ks: seq<Pattern>, k: Pattern)
    ensures Fresh(known, ks + [k]) == Fresh(known, ks) + if k in known || k in ks then [] else [k]
  {
    Front(ks + [k], ks, k);
  }

  /** Property: after a reload each key maps to the address of the last line
      that names it, and keys no line names keep their old address. */
  lemma {:induction false} MergeFind(db: Db, lines: seq<string>, key: Pattern)
    ensures Find(Merge(db, lines), key) ==
      if LastFor(lines, key).Some? then LastFor(lines, key) else Find(db, key)
  {
    if lines != [] {
      MergeFind(db, lines[..|lines| - 1], key);
    }
  }

  lemma {:induction false} SameKeysSameFindsEqual(a: Db, b: Db)
    requires UniqueKeys(a) && UniqueKeys(b) && Keys(a) == Keys(b)
    requires forall k :: Find(a, k) == Find(b, k)
    ensures a == b
  {
    assert |a| == |b|;
    forall i | 0 <= i < |a| ensures a[i] == b[i] {
      FindAt(a, i);
      FindAt(b, i);
      assert a[i].key == Keys(a)[i] == Keys(b)[i] == b[i].key;
    }
  }

  /** A second reload of the same lines adds no key. */
  lemma MergeAgainKeys(db: Db, lines: seq<string>)
    requires UniqueKeys(db)
    ensures UniqueKeys(Merge(db, lines))
    ensures Keys(Merge(Merge(db, lines), lines)) == Keys(Merge(db, lines))
  {
    var once := Merge(db, lines);
    var twice := Merge(once, lines);
    MergeKeys(db, lines);
    MergeKeys(once, lines);
    NoNewKeys(Keys(once), Keys(twice));
  }

  /** A duplicate-free extension whose elements all occur in the prefix
      is the prefix itself. */
  lemma NoNewKeys(a: seq<Pattern>, b: seq<Pattern>)
    requires a <= b
    requires forall i, j :: 0 <= i < j < |b| ==> b[i] != b[j]
    requires forall j :: 0 <= j < |b| ==> b[j] in a
    ensures a == b
  {
    if |b| > |a| {
      Element(b, |a|);
      assert false;
    }
  }

  lemma Element<T>(s: seq<T>, n: nat)
    requires n < |s|
    ensures s[n] in s
  {
  }

  /** Property: reloading the same lines a second time changes nothing, even
      were the content check to let it through. */
  lemma MergeIdempotent(db: Db, lines: seq<string>)
    requires UniqueKeys(db)
    ensures Merge(Merge(db, lines), lines) == Merge(db, lines)
  {
    var once := Merge(db, lines);
    var twice := Merge(once, lines);
    MergeAgainKeys(db, lines);
    MergeKeys(once, lines);
    forall k ensures Find(twice, k) == Find(once, k) {
      MergeFind(db, lines, k);
      MergeFind(once, lines, k);
    }
    SameKeysSameFindsEqual(twice, once);
  }

  // ----- Lookup -----

  /** Entry `i` is the first whose pattern matches `query`. */
  predicate FirstHit(db: Db, query: string, i: nat)
  {
    i < |db| && Search(db[i].key, query) && forall j :: 0 <= j < i ==> !Search(db[j].key, query)
  }

  /** `lookup`: the address of the first entry, in insertion order, whose
      pattern matches the query anywhere; None when no entry matches. */
  function Lookup(db: Db, query: string): (r: Option<Address>)
    ensures r.None? <==> forall i :: 0 <= i < |db| ==> !Search(db[i].key, query)
    ensures r.Some? ==> exists i: nat :: FirstHit(db, query, i) && r.value == db[i].address
  {
    if db == [] then None
    else if Search(db[0].key, query) then Some(db[0].address)
    else
      var r := Lookup(db[1..], query);
      assert forall i :: 1 <= i < |db| ==> db[1..][i - 1] == db[i];
      if r.Some? then
        var i: nat :| FirstHit(db[1..], query, i) && r.value == db[1..][i].address;
        assert FirstHit(db, query, i + 1);
        r
      else r
  }

  /** Property: the first matching entry is the one `lookup` returns. */
  lemma LookupFirstHit(db: Db, query: string, i: nat)
    requires FirstHit(db, query, i)
    ensures Lookup(db, query) == Some(db[i].address)
  {
    var r := Lookup(db, query);
    var k: nat :| FirstHit(db, query, k) && r.value == db[k].address;
    assert k == i;
  }

  /** Property: lookup in terms of what the patterns mean: a hit is the
      address of the first entry whose pattern occurs in the query, and a
      miss means no entry's pattern occurs in it. */
  lemma LookupMeaning(db: Db, query: string)
    ensures Lookup(db, query).None? <==> forall i :: 0 <= i < |db| ==> !Occurs(db[i].key, query)
    ensures Lookup(db, query).Some? ==>
      (exists i :: 0 <= i < |db| && Occurs(db[i].key, query)
         && Lookup(db, query).value == db[i].address
         && forall j :: 0 <= j < i ==> !Occurs(db[j].key, query))
  {
    forall i | 0 <= i < |db| ensures Search(db[i].key, query) <==> Occurs(db[i].key, query) {
      SearchSpec(db[i].key, query);
    }
  }
}
