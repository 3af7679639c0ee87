/** The `DNSProxy` object (server.php:21-178): the records database and the
    content check that decides when to reload it, and one turn of the
    `listen` loop on a datagram that has been received. */
module Proxy {
  import opened Base
  import opened Records
  import Patterns
  import Addresses
  import QueryName
  import Response

  /** PHP truthiness of the string `lookup` returns: the empty string and
      the one-character string "0" count as a miss at server.php:102. */
  function Truthy(a: Address): (t: bool)
    ensures a == [] ==> !t
    ensures |a| >= 2 ==> t
    ensures |a| == 1 ==> (t <==> a[0] != '0' as int)
  {
    a != [] && a != ['0' as int]
  }

  /** The datagram `listen` sends back for `buf` with database `db`, or None
      when it sends nothing. */
  function Reply(db: Db, buf: seq<byte>): (r: Option<seq<byte>>)
    requires |buf| >= 12
    ensures var hit := Lookup(db, QueryName.DecodeName(buf[12..]));
      r.None? <==> hit.None? || !Truthy(hit.value)
    ensures r.Some? ==> |r.value| > |buf| && r.value[..2] == buf[..2] && r.value[12..|buf|] == buf[12..]
  {
    match Lookup(db, QueryName.DecodeName(buf[12..]))
    case Some(a) => if Truthy(a) then Some(Response.Encode(buf, a)) else None
    case None => None
  }

  class DNSProxy {
    /** What `md5_file` last returned; the file content stands for its
        digest. None until a records file has been seen. */
    var hash: Option<seq<string>>
    /** The compiled patterns with their addresses, in insertion order. */
    var db: Db

    ghost predicate Valid()
      reads this
    {
      UniqueKeys(db)
    }

    /** The constructor loads the records file, if there is one. */
    constructor (file: Option<seq<string>>)
      ensures Valid()
      ensures hash == file
      ensures db == if file.Some? then Merge([], file.value) else []
    {
      hash := None;
      db := [];
      new;
      var _ := Refresh(file);
    }

    /** `loadDB`: `file` is the records file as lines, None when it does not
        exist. Nothing changes when the file is missing or its content is
        the one last loaded; otherwise its lines are merged into the
        database and the number of lines with two fields is reported. */
    method Refresh(file: Option<seq<string>>) returns (added: Option<nat>)
      requires Valid()
      modifies this
      ensures Valid()
      ensures file.None? || file == old(hash) ==>
        hash == old(hash) && db == old(db) && added.None?
      ensures file.Some? && file != old(hash) ==>
        hash == file && db == Merge(old(db), file.value) && added == Some(ValidCount(file.value))
    {
      added := None;
      if file.Some? {
        if hash != file {
          hash := file;
          var records := file.value;
          ghost var start := db;
          var valid := 0;
          var i := 0;
          while i < |records|
            invariant 0 <= i <= |records|
            invariant hash == file
            invariant db == Merge(start, records[..i]) && UniqueKeys(db)
            invariant valid == ValidCount(records[..i])
          {
            MergeSnoc(start, records, i);
            var ok := Load(records[i]);
            CountSnoc(records, i, ok);
            if ok {
              valid := valid + 1;
            }
            i := i + 1;
          }
          assert records[..i] == records;
          added := Some(valid);
        }
      }
    }

    /** The body of the `loadDB` loop for one line: a line with fewer than
        two fields is skipped, any other assigns its compiled domain. */
    method Load(line: string) returns (ok: bool)
      requires Valid()
      modifies this
      ensures Valid() && hash == old(hash)
      ensures ok == ParseLine(line).Some?
      ensures db == Apply(old(db), line)
    {
      var record := ParseLine(line);
      match record {
        case None =>
          ApplySkip(db, line);
          ok := false;
        case Some(rec) =>
          ApplyRecord(db, line, rec);
          Assign(rec.domain, rec.address);
          ok := true;
      }
    }

    /** The assignment in the `loadDB` loop: the compiled pattern of the
        name gets the address bytes, in place when it is already a key and
        at the end otherwise. */
    method Assign(domain: string, address: string)
      requires Valid()
      modifies this
      ensures Valid() && hash == old(hash)
      ensures db == Put(old(db), Patterns.Compile(domain), Addresses.IP2Bytes(address))
    {
      var key, bytes := Patterns.Compile(domain), Addresses.IP2Bytes(address);
      PutUnique(db, key, bytes);
      db := Put(db, key, bytes);
    }

    /** One turn of the `listen` loop after `socket_recvfrom` has delivered
        `buf`: reload if needed, decode the question name, look it up, and
        build the answer on a hit. */
    method Serve(buf: seq<byte>, file: Option<seq<string>>) returns (reply: Option<seq<byte>>)
      requires Valid() && |buf| >= 12
      modifies this
      ensures Valid()
      ensures file.None? || file == old(hash) ==> hash == old(hash) && db == old(db)
      ensures file.Some? && file != old(hash) ==> hash == file && db == Merge(old(db), file.value)
      ensures reply == Reply(db, buf)
    {
      var _ := Refresh(file);
      var query := QueryName.DecodeQuery(buf);
      var addr := Lookup(db, query);
      if addr.Some? && Truthy(addr.value) {
        var out: seq<byte> := [buf[0], buf[1], 0x81, 0x80, buf[4], buf[5], buf[4], buf[5], 0, 0, 0, 0];
        out := out + buf[12..];
        out := out + [0xC0, 0x0C];
        out := out + [0, 1, 0, 1, 0, 0, 0, 60, 0, 4];
        out := out + addr.value;
        reply := Some(out);
      } else {
        reply := None;
      }
    }
  }

  /** Entry `i` is the first, in insertion order, whose pattern occurs in
      the name `q`. */
  ghost predicate FirstOccurs(db: Db, q: string, i: nat)
  {
    i < |db| && Patterns.Occurs(db[i].key, q) && forall j :: 0 <= j < i ==> !Patterns.Occurs(db[j].key, q)
  }

  /** Property: when some pattern occurs in the decoded name, the first such
      entry decides: its address, if truthy, is answered, and otherwise
      nothing is sent. */
  lemma ReplyMeaning(db: Db, buf: seq<byte>, i: nat)
    requires |buf| >= 12 && FirstOccurs(db, QueryName.DecodeName(buf[12..]), i)
    ensures Reply(db, buf) == if Truthy(db[i].address) then Some(Response.Encode(buf, db[i].address)) else None
  {
    var q := QueryName.DecodeName(buf[12..]);
    forall j | 0 <= j <= i ensures Patterns.Search(db[j].key, q) <==> Patterns.Occurs(db[j].key, q) {
      Patterns.SearchSpec(db[j].key, q);
    }
    assert FirstHit(db, q, i);
    LookupFirstHit(db, q, i);
  }

  /** Property: a name no pattern occurs in gets no answer. */
  lemma NoMatchNoReply(db: Db, buf: seq<byte>)
    requires |buf| >= 12
    requires forall i :: 0 <= i < |db| ==> !Patterns.Occurs(db[i].key, QueryName.DecodeName(buf[12..]))
    ensures Reply(db, buf) == None
  {
    LookupMeaning(db, QueryName.DecodeName(buf[12..]));
  }

  /** Property: a records file holding `<address> <name>` for a name without
      a star answers a query for exactly that name with a response whose
      answer carries the four octets of the address. */
  lemma LineThenQueryHits(ip: Address, labels: seq<seq<byte>>, header: seq<byte>, rest: seq<byte>)
    requires |ip| == 4 && |header| == 12
    requires forall k :: 0 <= k < |labels| ==> QueryName.IsLabel(labels[k])
    requires labels != [] && var last := labels[|labels| - 1]; last != [] && last[|last| - 1] != '.' as int
    requires IsField(QueryName.JoinDots(labels)) && '*' !in QueryName.JoinDots(labels)
    ensures
      var line := Addresses.Implode(Addresses.DottedDecimal(ip)) + " " + QueryName.JoinDots(labels);
      var buf := header + (QueryName.EncodeLabels(labels) + [0] + rest);
      Reply(Merge([], [line]), buf) == Some(Response.Encode(buf, ip))
  {
    var name := QueryName.JoinDots(labels);
    var line := Addresses.Implode(Addresses.DottedDecimal(ip)) + " " + name;
    var question := QueryName.EncodeLabels(labels) + [0] + rest;
    var buf := header + question;
    SingleLineDb(ip, name);
    assert QueryName.DecodeName(buf[12..]) == name by {
      assert buf[12..] == question;
      QueryName.DecodeWellFormed(labels, rest);
    }
    LookupOwnName(name, ip);
    ReplyHit([Entry(Patterns.Compile(name), ip)], buf, ip);
  }

  lemma ReplyHit(db: Db, buf: seq<byte>, a: Address)
    requires |buf| >= 12 && Lookup(db, QueryName.DecodeName(buf[12..])) == Some(a) && |a| == 4
    ensures Reply(db, buf) == Some(Response.Encode(buf, a))
  {
  }

  /** A file of one line `<address> <name>` loads as one entry. */
  lemma SingleLineDb(ip: Address, name: string)
    requires |ip| >= 1 && IsField(name)
    ensures Merge([], [Addresses.Implode(Addresses.DottedDecimal(ip)) + " " + name]) == [Entry(Patterns.Compile(name), ip)]
  {
    var text := Addresses.Implode(Addresses.DottedDecimal(ip));
    var line := text + " " + name;
    DottedDecimalIsField(ip);
    ParseTwoFields(text, name);
    Addresses.IP2BytesDottedDecimal(ip);
    MergeOne(line);
  }

  /** A star-free pattern finds its own text. */
  lemma LookupOwnName(name: string, ip: Address)
    requires '*' !in name
    ensures Lookup([Entry(Patterns.Compile(name), ip)], name) == Some(ip)
  {
    Patterns.LiteralOccurs(name, name);
    assert Patterns.AppearsAt(name, name, 0);
    Patterns.SearchSpec(Patterns.Compile(name), name);
  }

  lemma DottedDecimalIsField(ip: Address)
    requires |ip| >= 1
    ensures IsField(Addresses.Implode(Addresses.DottedDecimal(ip)))
  {
    var parts := Addresses.DottedDecimal(ip);
    ImplodeDigits(parts);
  }

  lemma {:induction false} ImplodeDigits(parts: seq<string>)
    requires |parts| >= 1
    requires forall k :: 0 <= k < |parts| ==> parts[k] != [] && forall c :: c in parts[k] ==> Addresses.IsDigit(c)
    ensures IsField(Addresses.Implode(parts))
  {
    if |parts| > 1 {
      ImplodeDigits(parts[1..]);
      var s := Addresses.Implode(parts);
      assert s == parts[0] + "." + Addresses.Implode(parts[1..]);
      forall k | 0 <= k < |s| ensures !IsSpace(s[k]) && s[k] as int != 0 {
        if k < |parts[0]| {
          assert s[k] in parts[0];
        } else if k > |parts[0]| {
          assert s[k] == Addresses.Implode(parts[1..])[k - |parts[0]| - 1];
        }
      }
    } else {
      forall k | 0 <= k < |parts[0]| ensures !IsSpace(parts[0][k]) && parts[0][k] as int != 0 {
        assert parts[0][k] in parts[0];
      }
    }
  }
}
