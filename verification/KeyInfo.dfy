/** The HKDF `info` strings of the key hierarchy: one versioned label per family of keys, followed by
    no id, one id, or a length-prefixed id and a second one. */
module KeyInfo {
  import opened Foundations
  import opened Sequences
  import opened Bytes

  datatype Family =
    | ArchiveRoot | BackupRoot | SearchRoot | ProfilePrivateData
    | ArchiveSegment | ArchiveManifest | BackupSegment | BackupManifest
    | TextIndexShard | VectorIndexShard | MediaIndexShard | BloomIndexShard
    | ArchiveEpoch | B2bTenantRoot
    | B2bArchiveEpoch | B2bTextIndexShard

  function Label(f: Family): string {
    match f
    case ArchiveRoot => "kchat-archive-root-v1"
    case BackupRoot => "kchat-backup-root-v1"
    case SearchRoot => "kchat-search-root-v1"
    case ProfilePrivateData => "kchat-profile-private-data-v1"
    case ArchiveSegment => "kchat-archive-segment-v1"
    case ArchiveManifest => "kchat-archive-manifest-v1"
    case BackupSegment => "kchat-backup-segment-v1"
    case BackupManifest => "kchat-backup-manifest-v1"
    case TextIndexShard => "kchat-text-index-shard-v1"
    case VectorIndexShard => "kchat-vector-index-shard-v1"
    case MediaIndexShard => "kchat-media-index-shard-v1"
    case BloomIndexShard => "kchat-bloom-index-shard-v1"
    case ArchiveEpoch => "kchat-archive-epoch-v1"
    case B2bTenantRoot => "kchat-b2b-tenant-root-v1"
    case B2bArchiveEpoch => "kchat-b2b-archive-epoch-v1"
    case B2bTextIndexShard => "kchat-b2b-text-index-shard-v1"
  }

  function Ids(f: Family): nat {
    match f
    case ArchiveRoot | BackupRoot | SearchRoot | ProfilePrivateData => 0
    case B2bArchiveEpoch | B2bTextIndexShard => 2
    case _ => 1
  }

  /** What a caller asks a key for; ids a family does not take are empty. */
  datatype Choice = Choice(family: Family, first: seq<byte>, second: seq<byte>) {
    predicate Valid() {
      && (Ids(family) == 0 ==> first == [])
      && (Ids(family) < 2 ==> second == [])
    }
  }

  /** The length of the first id, saturated at 32 bits. */
  function LengthPrefix(id: seq<byte>): u32 {
    if |id| < 0x1_0000_0000 then |id| else 0xffff_ffff
  }

  function Info(c: Choice): seq<byte> {
    Ascii(Label(c.family)) + match Ids(c.family)
      case 0 => []
      case 1 => c.first
      case _ => BigEndian(4, LengthPrefix(c.first)) + c.first + c.second
  }

  /** The info strings of the keys that take no id. */
  lemma {:induction false} RootInfos()
    ensures Info(Choice(ArchiveRoot, [], [])) == Ascii("kchat-archive-root-v1")
    ensures Info(Choice(BackupRoot, [], [])) == Ascii("kchat-backup-root-v1")
    ensures Info(Choice(SearchRoot, [], [])) == Ascii("kchat-search-root-v1")
    ensures Info(Choice(ProfilePrivateData, [], [])) == Ascii("kchat-profile-private-data-v1")
  {
  }

  /** Those that take one id: label and id, end to end. */
  lemma {:induction false} SegmentInfos(id: seq<byte>)
    ensures Info(Choice(ArchiveSegment, id, [])) == Ascii("kchat-archive-segment-v1") + id
    ensures Info(Choice(ArchiveManifest, id, [])) == Ascii("kchat-archive-manifest-v1") + id
    ensures Info(Choice(BackupSegment, id, [])) == Ascii("kchat-backup-segment-v1") + id
    ensures Info(Choice(BackupManifest, id, [])) == Ascii("kchat-backup-manifest-v1") + id
    ensures Info(Choice(ArchiveEpoch, id, [])) == Ascii("kchat-archive-epoch-v1") + id
  {
  }

  lemma {:induction false} IndexShardInfos(id: seq<byte>)
    ensures Info(Choice(TextIndexShard, id, [])) == Ascii("kchat-text-index-shard-v1") + id
    ensures Info(Choice(VectorIndexShard, id, [])) == Ascii("kchat-vector-index-shard-v1") + id
  {
  }

  lemma {:induction false} MediaShardInfos(id: seq<byte>)
    ensures Info(Choice(MediaIndexShard, id, [])) == Ascii("kchat-media-index-shard-v1") + id
    ensures Info(Choice(BloomIndexShard, id, [])) == Ascii("kchat-bloom-index-shard-v1") + id
  {
  }

  /** The tenant keys: one id, or the length of the first in four bytes and then both. */
  lemma {:induction false} TenantInfos(a: seq<byte>, b: seq<byte>)
    requires |a| < 0x1_0000_0000
    ensures Info(Choice(B2bTenantRoot, a, [])) == Ascii("kchat-b2b-tenant-root-v1") + a
    ensures Info(Choice(B2bArchiveEpoch, a, b)) == Ascii("kchat-b2b-archive-epoch-v1") + (BigEndian(4, |a|) + a + b)
    ensures Info(Choice(B2bTextIndexShard, a, b)) == Ascii("kchat-b2b-text-index-shard-v1") + (BigEndian(4, |a|) + a + b)
  {
  }

  // ------------------------------------------------------------------ labels are prefix-free

  /** Five positions that every label has and no two labels agree on. */
  function Signature(text: string): (char, char, char, char, char)
    requires |text| >= 20
  {
    (text[6], text[7], text[12], text[13], text[14])
  }

  function SignatureOf(f: Family): (char, char, char, char, char) {
    match f
    case ArchiveRoot => ('a', 'r', 'e', '-', 'r')
    case BackupRoot => ('b', 'a', '-', 'r', 'o')
    case SearchRoot => ('s', 'e', '-', 'r', 'o')
    case ProfilePrivateData => ('p', 'r', 'e', '-', 'p')
    case ArchiveSegment => ('a', 'r', 'e', '-', 's')
    case ArchiveManifest => ('a', 'r', 'e', '-', 'm')
    case BackupSegment => ('b', 'a', '-', 's', 'e')
    case BackupManifest => ('b', 'a', '-', 'm', 'a')
    case TextIndexShard => ('t', 'e', 'n', 'd', 'e')
    case VectorIndexShard => ('v', 'e', '-', 'i', 'n')
    case MediaIndexShard => ('m', 'e', 'i', 'n', 'd')
    case BloomIndexShard => ('b', 'l', 'i', 'n', 'd')
    case ArchiveEpoch => ('a', 'r', 'e', '-', 'e')
    case B2bTenantRoot => ('b', '2', 'n', 'a', 'n')
    case B2bArchiveEpoch => ('b', '2', 'c', 'h', 'i')
    case B2bTextIndexShard => ('b', '2', 'x', 't', '-')
  }

  lemma {:induction false} LabelLength(f: Family)
    ensures |Label(f)| >= 20
  {
  }

  lemma {:induction false} LabelSignature(f: Family)
    ensures |Label(f)| >= 20 && Signature(Label(f)) == SignatureOf(f)
  {
    LabelLength(f);
    var l, s := Label(f), SignatureOf(f);
    assert l[6] == s.0;
    assert l[7] == s.1;
    assert l[12] == s.2;
    assert l[13] == s.3;
    assert l[14] == s.4;
  }

  lemma {:induction false} SignatureIsAscii(f: Family)
    ensures var s := SignatureOf(f);
      s.0 < 128 as char && s.1 < 128 as char && s.2 < 128 as char && s.3 < 128 as char && s.4 < 128 as char
  {
  }

  lemma {:induction false} SignaturesDiffer(f: Family, g: Family)
    requires SignatureOf(f) == SignatureOf(g)
    ensures f == g
  {
  }

  lemma {:induction false} SignatureBytes(f: Family, a: seq<byte>)
    ensures var s := Ascii(Label(f)) + a;
      && |s| >= 20
      && (s[6] as char, s[7] as char, s[12] as char, s[13] as char, s[14] as char) == SignatureOf(f)
  {
    LabelSignature(f);
    SignatureIsAscii(f);
  }

  /** No label is a prefix of another. */
  lemma {:induction false} LabelsArePrefixFree(f: Family, g: Family, a: seq<byte>, b: seq<byte>)
    requires Ascii(Label(f)) + a == Ascii(Label(g)) + b
    ensures f == g && a == b
  {
    SignatureBytes(f, a);
    SignatureBytes(g, b);
    SignaturesDiffer(f, g);
    Suffix(Ascii(Label(f)), a);
    Suffix(Ascii(Label(g)), b);
  }

  lemma {:induction false} Suffix(a: seq<byte>, b: seq<byte>)
    ensures (a + b)[|a|..] == b
  {
  }

  // ------------------------------------------------------------------ info strings

  predicate Saturated(id: seq<byte>) {
    |id| >= 0xffff_ffff
  }

  lemma {:induction false} PairsExactlyWhen(a: seq<byte>, b: seq<byte>, c: seq<byte>, d: seq<byte>)
    ensures BigEndian(4, LengthPrefix(a)) + a + b == BigEndian(4, LengthPrefix(c)) + c + d
       <==> (a == c && b == d) || (Saturated(a) && Saturated(c) && a + b == c + d)
  {
    var p, q := BigEndian(4, LengthPrefix(a)), BigEndian(4, LengthPrefix(c));
    var s, t := p + a + b, q + c + d;
    assert s[..4] == p && t[..4] == q && s[4..] == a + b && t[4..] == c + d;
    Regroup(p, a, b);
    Regroup(q, c, d);
    if s == t {
      Widths();
      BigEndianInjective(4, LengthPrefix(a), LengthPrefix(c));
      if |a| == |c| {
        assert a == (a + b)[..|a|] && c == (c + d)[..|a|] && b == (a + b)[|a|..] && d == (c + d)[|a|..];
      }
    }
  }

  /** Two choices get the same info string exactly when they are the same choice, or belong to the
      same two-id family, both first ids have 2^32 - 1 bytes or more, and the ids run together alike. */
  lemma {:induction false} InfoExactlyWhen(x: Choice, y: Choice)
    requires x.Valid() && y.Valid()
    ensures Info(x) == Info(y)
       <==> || x == y
            || (&& x.family == y.family && Ids(x.family) == 2 && Saturated(x.first) && Saturated(y.first)
                && x.first + x.second == y.first + y.second)
  {
    if Info(x) == Info(y) {
      LabelsArePrefixFree(x.family, y.family, Info(x)[|Label(x.family)|..], Info(y)[|Label(y.family)|..]) by {
        assert Info(x) == Ascii(Label(x.family)) + Info(x)[|Label(x.family)|..];
        assert Info(y) == Ascii(Label(y.family)) + Info(y)[|Label(y.family)|..];
      }
    }
    if x.family == y.family {
      assert Info(x) == Info(y) <==> Info(x)[|Label(x.family)|..] == Info(y)[|Label(x.family)|..];
      PairsExactlyWhen(x.first, x.second, y.first, y.second);
    }
  }

  /** The saturating prefix does let the boundary slip once first ids reach 2^32 - 1 bytes. */
  lemma {:induction false} LongIdsCollide(f: Family, a: seq<byte>, b: byte, rest: seq<byte>)
    requires Ids(f) == 2 && |a| >= 0xffff_ffff
    ensures var x, y := Choice(f, a, [b] + rest), Choice(f, a + [b], rest);
      x.Valid() && y.Valid() && x != y && Info(x) == Info(y)
  {
    var x, y := Choice(f, a, [b] + rest), Choice(f, a + [b], rest);
    assert |x.first| != |y.first|;
    Regroup(a, [b], rest);
    InfoExactlyWhen(x, y);
  }
}
