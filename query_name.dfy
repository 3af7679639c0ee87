/** The question-name decoder of `DNSProxy::listen` (server.php:68-94):
    the walk over the length-prefixed labels that follow the 12-byte header,
    in the wire form of section 3.1 / 4.1.2 of RFC 1035. */
module QueryName {
  import opened Base

  /** PHP's `substr(tmp, from, len)` for `from <= |tmp|`: the bytes
      `[from, from + len)`, cut short at the end of the buffer. */
  function Substr(tmp: seq<byte>, from: nat, len: nat): (r: seq<byte>)
    ensures |r| == if from + len <= |tmp| then len else if from <= |tmp| then |tmp| - from else 0
  {
    if from >= |tmp| then []
    else if from + len <= |tmp| then tmp[from..from + len]
    else tmp[from..]
  }

  /** The label whose length byte is at offset `i`: `substr($tmp, $i + 1, $len)`. */
  function Label(tmp: seq<byte>, i: nat): seq<byte>
    requires i < |tmp|
  {
    Substr(tmp, i + 1, tmp[i] as nat)
  }

  /** Where the loop reads the next length byte: past the label at `i`. */
  function Next(tmp: seq<byte>, i: nat): (n: nat)
    requires i < |tmp|
    ensures n > i
  {
    i + 1 + tmp[i] as nat
  }

  /** The labels the decode loop reads when it starts at offset `i` of the
      question bytes: one per length byte, until a zero length byte or the
      end of the buffer. */
  function Labels(tmp: seq<byte>, i: nat): seq<seq<byte>>
    decreases |tmp| - i
  {
    if i >= |tmp| || tmp[i] == 0 then []
    else [Label(tmp, i)] + Labels(tmp, Next(tmp, i))
  }

  /** The text the loop appends to `$query` for `labels`: each label
      followed by a dot. */
  function Dotted(labels: seq<seq<byte>>): string
  {
    if labels == [] then [] else BytesToString(labels[0]) + "." + Dotted(labels[1..])
  }

  /** PHP's `rtrim(s, '.')`: the longest prefix of `s` that does not end in a
      dot, with only dots after it. */
  function RTrimDots(s: string): (r: string)
    ensures r <= s
    ensures r == [] || r[|r| - 1] != '.'
    ensures forall k :: |r| <= k < |s| ==> s[k] == '.'
  {
    if s != [] && s[|s| - 1] == '.' then RTrimDots(s[..|s| - 1]) else s
  }

  /** The domain name the proxy looks up for the question bytes `tmp`
      (the datagram from offset 12 on). Decoding never fails. */
  function DecodeName(tmp: seq<byte>): (name: string)
    ensures name == [] || name[|name| - 1] != '.'
    ensures |name| <= |tmp|
  {
    DottedLength(tmp, 0);
    RTrimDots(Dotted(Labels(tmp, 0)))
  }

  /** Each label read, with its dot, takes no more room than its length
      byte and its bytes did. */
  lemma {:induction false} DottedLength(tmp: seq<byte>, i: nat)
    requires i <= |tmp|
    ensures |Dotted(Labels(tmp, i))| <= |tmp| - i
    decreases |tmp| - i
  {
    if i < |tmp| && tmp[i] != 0 {
      LabelsStep(tmp, i);
      var n := Next(tmp, i);
      if n <= |tmp| {
        DottedLength(tmp, n);
      } else {
        assert Labels(tmp, n) == [];
      }
    }
  }

  /** One turn of the decode loop on a nonzero length byte. */
  lemma LabelsStep(tmp: seq<byte>, i: nat)
    requires i < |tmp| && tmp[i] != 0
    ensures Dotted(Labels(tmp, i)) == (BytesToString(Label(tmp, i)) + ".") + Dotted(Labels(tmp, Next(tmp, i)))
  {
    assert Labels(tmp, i)[1..] == Labels(tmp, Next(tmp, i));
  }

  /** Where the loop stops, nothing more is read. */
  lemma LabelsEnd(tmp: seq<byte>, i: nat)
    requires i >= |tmp| || tmp[i] == 0
    ensures Dotted(Labels(tmp, i)) == []
  {
  }

  lemma AppendAssoc<T>(a: seq<T>, b: seq<T>, c: seq<T>)
    ensures (a + b) + c == a + (b + c)
  {
  }

  /** The decode loop of `listen` on a received datagram. */
  method DecodeQuery(buf: seq<byte>) returns (query: string)
    requires |buf| >= 12
    ensures query == DecodeName(buf[12..])
  {
    var tmp := buf[12..];
    query := "";
    var i: nat := 0;
    while i < |tmp|
      invariant query + Dotted(Labels(tmp, i)) == Dotted(Labels(tmp, 0))
      decreases |tmp| - i
    {
      var len := tmp[i] as nat;
      if len == 0 {
        break;
      }
      var piece := BytesToString(Label(tmp, i)) + ".";
      LabelsStep(tmp, i);
      AppendAssoc(query, piece, Dotted(Labels(tmp, Next(tmp, i))));
      query := query + piece;
      i := Next(tmp, i);
    }
    LabelsEnd(tmp, i);
    assert query + [] == query;
    query := RTrimDots(query);
  }

  // ----- The wire form the decoder is meant to read -----

  /** A label as it may appear on the wire: 1 to 255 bytes, so that its
      length fits the length byte and cannot be read as the terminator. */
  predicate IsLabel(l: seq<byte>)
  {
    0 < |l| < 256
  }

  /** Length-prefixed encoding of a list of labels (without the final zero). */
  function EncodeLabels(labels: seq<seq<byte>>): (r: seq<byte>)
    requires forall k :: 0 <= k < |labels| ==> IsLabel(labels[k])
  {
    if labels == [] then [] else EncodeLabel(labels[0]) + EncodeLabels(labels[1..])
  }

  /** One label on the wire: its length byte, then its bytes. */
  function EncodeLabel(l: seq<byte>): (r: seq<byte>)
    requires IsLabel(l)
  {
    var n: byte := |l|; [n] + l
  }

  /** The labels joined by dots, the name a resolver means by them. */
  function JoinDots(labels: seq<seq<byte>>): string
  {
    if labels == [] then []
    else if |labels| == 1 then BytesToString(labels[0])
    else BytesToString(labels[0]) + "." + JoinDots(labels[1..])
  }

  lemma SubstrShift(p: seq<byte>, t: seq<byte>, from: nat, len: nat)
    ensures Substr(p + t, |p| + from, len) == Substr(t, from, len)
  {
    if from + len <= |t| {
      assert (p + t)[|p| + from..|p| + from + len] == t[from..from + len];
    } else if from <= |t| {
      assert (p + t)[|p| + from..] == t[from..];
    }
  }

  lemma StepShift(p: seq<byte>, t: seq<byte>, j: nat)
    requires j < |t|
    ensures (p + t)[|p| + j] == t[j]
    ensures Label(p + t, |p| + j) == Label(t, j)
    ensures Next(p + t, |p| + j) == |p| + Next(t, j)
  {
    SubstrShift(p, t, j + 1, t[j] as nat);
  }

  /** The walk depends only on the bytes at and after its start offset. */
  lemma {:induction false} LabelsShift(p: seq<byte>, t: seq<byte>, j: nat)
    ensures Labels(p + t, |p| + j) == Labels(t, j)
    decreases |t| - j
  {
    if j < |t| {
      StepShift(p, t, j);
      if t[j] != 0 {
        LabelsShift(p, t, Next(t, j));
      }
    }
  }

  /** One label, then whatever follows it. */
  lemma LabelsOne(l: seq<byte>, tail: seq<byte>)
    requires IsLabel(l)
    ensures Labels(EncodeLabel(l) + tail, 0) == [l] + Labels(tail, 0)
  {
    var head := EncodeLabel(l);
    assert Label(head + tail, 0) == l by {
      assert (head + tail)[1..1 + |l|] == l;
    }
    LabelsShift(head, tail, 0);
  }

  /** Walking an encoded label list followed by anything reads those labels,
      then whatever the rest yields. */
  lemma {:induction false} LabelsEncoded(labels: seq<seq<byte>>, t: seq<byte>)
    requires forall k :: 0 <= k < |labels| ==> IsLabel(labels[k])
    ensures Labels(EncodeLabels(labels) + t, 0) == labels + Labels(t, 0)
  {
    if labels == [] {
      assert EncodeLabels(labels) + t == t;
    } else {
      var rest := EncodeLabels(labels[1..]);
      assert EncodeLabels(labels) + t == EncodeLabel(labels[0]) + (rest + t);
      LabelsOne(labels[0], rest + t);
      LabelsEncoded(labels[1..], t);
      AppendAssoc([labels[0]], labels[1..], Labels(t, 0));
      assert labels == [labels[0]] + labels[1..];
    }
  }

  lemma {:induction false} DottedIsJoinPlusDot(labels: seq<seq<byte>>)
    requires labels != []
    ensures Dotted(labels) == JoinDots(labels) + "."
  {
    if |labels| > 1 {
      DottedIsJoinPlusDot(labels[1..]);
    } else {
      assert Dotted(labels[1..]) == [];
    }
  }

  lemma {:induction false} JoinDotsLast(labels: seq<seq<byte>>)
    requires labels != [] && labels[|labels| - 1] != []
    ensures JoinDots(labels) != []
    ensures JoinDots(labels)[|JoinDots(labels)| - 1] as int == labels[|labels| - 1][|labels[|labels| - 1]| - 1]
  {
    if |labels| > 1 {
      JoinDotsLast(labels[1..]);
    }
  }

  /** Property: a name written as length-prefixed labels and ended by a zero
      byte decodes to the labels joined by dots, whatever follows the zero
      byte. A last label ending in a dot would lose that dot to `rtrim`. */
  lemma DecodeWellFormed(labels: seq<seq<byte>>, rest: seq<byte>)
    requires forall k :: 0 <= k < |labels| ==> IsLabel(labels[k])
    requires labels != [] ==> var last := labels[|labels| - 1]; last != [] && last[|last| - 1] != '.' as int
    ensures DecodeName(EncodeLabels(labels) + [0] + rest) == JoinDots(labels)
  {
    var t := [0] + rest;
    assert EncodeLabels(labels) + [0] + rest == EncodeLabels(labels) + t;
    LabelsEncoded(labels, t);
    assert Labels(t, 0) == [];
    assert labels + [] == labels;
    if labels != [] {
      DottedIsJoinPlusDot(labels);
      JoinDotsLast(labels);
      var j := JoinDots(labels);
      assert (j + ".")[..|j + "."| - 1] == j;
    }
  }

  /** Property: the end of the buffer ends the name as a zero byte does. */
  lemma EndOfBuffer(labels: seq<seq<byte>>)
    requires forall k :: 0 <= k < |labels| ==> IsLabel(labels[k])
    ensures Labels(EncodeLabels(labels), 0) == labels
  {
    LabelsEncoded(labels, []);
    assert EncodeLabels(labels) + [] == EncodeLabels(labels);
    assert labels + [] == labels;
  }

  /** Property: a last label cut short by the end of the buffer is read as
      the bytes that are present. */
  lemma Truncated(labels: seq<seq<byte>>, len: byte, partial: seq<byte>)
    requires forall k :: 0 <= k < |labels| ==> IsLabel(labels[k])
    requires 0 < len && |partial| < len
    ensures Labels(EncodeLabels(labels) + ([len] + partial), 0) == labels + [partial]
  {
    var t := [len] + partial;
    LabelsEncoded(labels, t);
    assert Labels(t, 0) == [partial] by {
      assert Label(t, 0) == partial;
      assert Labels(t, Next(t, 0)) == [];
    }
  }

  /** The walk from offset `i` meets a zero length byte inside `tmp`, with
      every label it passes lying wholly inside `tmp`. */
  predicate Terminated(tmp: seq<byte>, i: nat)
    decreases |tmp| - i
  {
    i < |tmp| && (tmp[i] == 0 || Terminated(tmp, Next(tmp, i)))
  }

  lemma StepExtend(tmp: seq<byte>, t: seq<byte>, i: nat)
    requires Terminated(tmp, i) && tmp[i] != 0
    ensures Next(tmp, i) < |tmp|
    ensures (tmp + t)[i] == tmp[i]
    ensures Label(tmp + t, i) == Label(tmp, i)
    ensures Next(tmp + t, i) == Next(tmp, i)
  {
    var len := tmp[i] as nat;
    assert (tmp + t)[i + 1..i + 1 + len] == tmp[i + 1..i + 1 + len];
  }

  /** Bytes after a terminated name do not change what it decodes to. */
  lemma {:induction false} LabelsExtend(tmp: seq<byte>, t: seq<byte>, i: nat)
    requires Terminated(tmp, i)
    ensures Labels(tmp + t, i) == Labels(tmp, i)
    decreases |tmp| - i
  {
    if tmp[i] != 0 {
      StepExtend(tmp, t, i);
      LabelsExtend(tmp, t, Next(tmp, i));
    } else {
      assert (tmp + t)[i] == 0;
    }
  }

  /** The offset just past the zero byte that ends a terminated name. */
  function NameEnd(tmp: seq<byte>, i: nat): (e: nat)
    requires Terminated(tmp, i)
    ensures i < e <= |tmp| && tmp[e - 1] == 0
    decreases |tmp| - i
  {
    if tmp[i] == 0 then i + 1 else NameEnd(tmp, Next(tmp, i))
  }

  /** Bytes after a terminated name do not move its end. */
  lemma {:induction false} NameEndExtend(tmp: seq<byte>, t: seq<byte>, i: nat)
    requires Terminated(tmp, i)
    ensures Terminated(tmp + t, i) && NameEnd(tmp + t, i) == NameEnd(tmp, i)
    decreases |tmp| - i
  {
    if tmp[i] != 0 {
      StepExtend(tmp, t, i);
      NameEndExtend(tmp, t, Next(tmp, i));
    } else {
      assert (tmp + t)[i] == 0;
    }
  }

  /** Property: a compression pointer is not followed; its first byte 0xC0
      is read as a label length of 192 and the bytes after it as the label. */
  lemma PointerReadAsLabel()
    ensures DecodeName([0xC0, 0x0C]) == [12 as char]
  {
    var tmp: seq<byte> := [0xC0, 0x0C];
    assert Label(tmp, 0) == [0x0C];
    assert Labels(tmp, 0) == [[0x0C]];
    assert Dotted([[0x0C]]) == [12 as char, '.'];
  }
}
