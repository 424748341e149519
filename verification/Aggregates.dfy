/** Aggregate ids and their encoding, which names partitions, subjects and streams. */
module Aggregates {
  import opened Wrappers

  datatype AggregateId = AggregateId(kind: string, key: string)

  /** strings.Split(s, "."), which always yields at least one part. */
  function Split(s: string): (parts: seq<string>)
    ensures |parts| > 0
  {
    if s == "" then [""]
    else
      var rest := Split(s[1..]);
      if s[0] == '.' then [""] + rest else [[s[0]] + rest[0]] + rest[1..]
  }

  /** strings.Join(parts, "."). */
  function Join(parts: seq<string>): string {
    if parts == [] then ""
    else if |parts| == 1 then parts[0]
    else parts[0] + "." + Join(parts[1..])
  }

  function Encode(id: AggregateId): string {
    Join([id.kind, id.key])
  }

  function Decode(s: string): Option<AggregateId> {
    var parts := Split(s);
    if |parts| < 2 then None else Some(AggregateId(parts[0], Join(parts[1..])))
  }

  lemma {:induction false} JoinSplit(s: string)
    ensures Join(Split(s)) == s
    ensures |Split(s)| < 2 <==> '.' !in s
    ensures '.' !in Split(s)[0]
  {
    if s != "" {
      JoinSplit(s[1..]);
      assert s == [s[0]] + s[1..];
      if s[0] != '.' {
        JoinPrepend(s[0], Split(s[1..]));
      }
    }
  }

  lemma JoinPrepend(c: char, parts: seq<string>)
    requires parts != []
    ensures Join([[c] + parts[0]] + parts[1..]) == [c] + Join(parts)
  {
    var first, rest := parts[0], parts[1..];
    if rest != [] {
      assert ([[c] + first] + rest)[1..] == rest;
      Regroup([c], first, ".", Join(rest));
    }
  }

  lemma Regroup(a: string, b: string, c: string, d: string)
    ensures a + b + c + d == a + (b + c + d)
  {
  }

  /** Up to the first dot nothing is split. */
  lemma {:induction false} SplitAtDot(front: string, back: string)
    requires '.' !in front
    ensures Split(front + "." + back) == [front] + Split(back)
  {
    var s := front + "." + back;
    if front == "" {
      assert s[1..] == back;
    } else {
      assert s[1..] == front[1..] + "." + back;
      SplitAtDot(front[1..], back);
      assert front == [front[0]] + front[1..];
    }
  }

  lemma EncodeIsDotted(id: AggregateId)
    ensures Encode(id) == id.kind + "." + id.key
  {
    assert [id.kind, id.key][1..] == [id.key];
    assert Join([id.key]) == id.key;
  }

  /** Decoding gives the id back exactly when its type has no dot; then keys may hold any number of them. */
  lemma DecodeEncodeExactlyWhen(id: AggregateId)
    ensures Decode(Encode(id)) == Some(id) <==> '.' !in id.kind
  {
    EncodeIsDotted(id);
    JoinSplit(Encode(id));
    if '.' !in id.kind {
      SplitAtDot(id.kind, id.key);
      JoinSplit(id.key);
      assert ([id.kind] + Split(id.key))[1..] == Split(id.key);
    }
  }

  /** Decoding fails exactly without a dot, and otherwise encoding the result gives the text back. */
  lemma EncodeDecode(s: string)
    ensures Decode(s).None? <==> '.' !in s
    ensures Decode(s).Some? ==> Encode(Decode(s).value) == s && '.' !in Decode(s).value.kind
  {
    JoinSplit(s);
    if Decode(s).Some? {
      EncodeIsDotted(Decode(s).value);
    }
  }

  /** Two ids share an encoding exactly if they decode to the same id, so dot-free types never mix. */
  lemma EncodeInjective(a: AggregateId, b: AggregateId)
    requires '.' !in a.kind && '.' !in b.kind
    ensures Encode(a) == Encode(b) <==> a == b
  {
    DecodeEncodeExactlyWhen(a);
    DecodeEncodeExactlyWhen(b);
  }

  /** A dotted type always shares its encoding with another id, whose type has no dot. */
  lemma DottedTypesMix(id: AggregateId) returns (other: AggregateId)
    requires '.' in id.kind
    ensures other != id && '.' !in other.kind && Encode(other) == Encode(id)
  {
    EncodeIsDotted(id);
    EncodeDecode(Encode(id));
    other := Decode(Encode(id)).value;
  }
}
