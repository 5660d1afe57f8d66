/**
 * The contact form's request body: `encode` joins
 * `encodeURIComponent(key) + "=" + encodeURIComponent(value)` for every key
 * of a record, in key order, with '&' (an application/x-www-form-urlencoded
 * body, WHATWG URL Standard, section 5). `ParseForm` is the standard's
 * parser for such a body, used here as the partner that proves nothing is
 * lost by the encoding.
 */
module FormUrlEncoded {
  import opened Wrappers
  import opened UriComponent

  /** A string-valued record as its ordered list of (key, value) entries, in Object.keys order. */
  type Record = seq<(string, string)>

  function EncodePair(entry: (string, string)): (s: string)
  {
    EncodeURIComponent(entry.0) + "=" + EncodeURIComponent(entry.1)
  }

  /** Array.prototype.join with a one-character separator. */
  function Join(parts: seq<string>, sep: char): string
    decreases |parts|
  {
    if |parts| == 0 then ""
    else if |parts| == 1 then parts[0]
    else parts[0] + [sep] + Join(parts[1..], sep)
  }

  /** The `map` step of `encode`: one `key=value` piece per entry, in order. */
  function EncodedPairs(data: Record): (parts: seq<string>)
    ensures |parts| == |data|
  {
    if data == [] then [] else [EncodePair(data[0])] + EncodedPairs(data[1..])
  }

  lemma {:induction false} EncodedPairsAt(data: Record, i: nat)
    requires i < |data|
    ensures EncodedPairs(data)[i] == EncodePair(data[i])
  {
    if i > 0 {
      EncodedPairsAt(data[1..], i - 1);
    }
  }

  /** `encode`: the pairs of the record, in order, joined with '&'. */
  function Encode(data: Record): string
  {
    Join(EncodedPairs(data), '&')
  }

  /** The number of occurrences of `c` in `s`. */
  function Count(s: string, c: char): nat
  {
    if s == [] then 0 else (if s[0] == c then 1 else 0) + Count(s[1..], c)
  }

  /** The first position of `c` in `s`, if any. */
  function IndexOf(s: string, c: char): (r: Option<nat>)
    ensures r.Some? ==> r.value < |s| && s[r.value] == c && c !in s[..r.value]
    ensures r.None? ==> c !in s
  {
    if s == [] then None
    else if s[0] == c then Some(0)
    else match IndexOf(s[1..], c)
      case None => None
      case Some(i) =>
        assert s[..i + 1] == [s[0]] + s[1..][..i];
        Some(i + 1)
  }

  /** Splits `s` at every occurrence of `sep`; the pieces never contain `sep`. */
  function Split(s: string, sep: char): (parts: seq<string>)
    ensures |parts| >= 1
    decreases |s|
  {
    match IndexOf(s, sep)
    case None => [s]
    case Some(i) => [s[..i]] + Split(s[i + 1..], sep)
  }

  /** Splits `s` at the first occurrence of `sep`; without one, the whole is the name and the value is empty. */
  function SplitAtFirst(s: string, sep: char): (string, string)
  {
    match IndexOf(s, sep)
    case None => (s, "")
    case Some(i) => (s[..i], s[i + 1..])
  }

  /** Replaces every '+' by a space, as the parser does before percent-decoding. */
  function PlusToSpace(s: string): (r: string)
    ensures |r| == |s|
    ensures forall i :: 0 <= i < |s| ==> r[i] == (if s[i] == '+' then ' ' else s[i])
  {
    if s == [] then [] else [if s[0] == '+' then ' ' else s[0]] + PlusToSpace(s[1..])
  }

  function ParseParts(parts: seq<string>): Option<Record>
    decreases |parts|
  {
    if parts == [] then Some([])
    else if parts[0] == "" then ParseParts(parts[1..])
    else
      var (name, value) := SplitAtFirst(parts[0], '=');
      match (DecodeComponent(PlusToSpace(name)), DecodeComponent(PlusToSpace(value)), ParseParts(parts[1..]))
      case (Some(n), Some(v), Some(tail)) => Some([(n, v)] + tail)
      case _ => None
  }

  /** The application/x-www-form-urlencoded parser: split on '&', skip empty pieces, split each at its first '='. */
  function ParseForm(body: string): Option<Record> {
    ParseParts(Split(body, '&'))
  }

  lemma {:induction false} CountConcat(a: string, b: string, c: char)
    ensures Count(a + b, c) == Count(a, c) + Count(b, c)
  {
    if a == [] {
      assert a + b == b;
    } else {
      assert (a + b)[1..] == a[1..] + b;
      CountConcat(a[1..], b, c);
    }
  }

  lemma {:induction false} CountAbsent(s: string, c: char)
    requires c !in s
    ensures Count(s, c) == 0
  {
    if s != [] {
      assert c !in s[1..] by {
        assert forall i :: 0 <= i < |s| - 1 ==> s[1..][i] == s[i + 1];
      }
      CountAbsent(s[1..], c);
    }
  }

  lemma PairCounts(entry: (string, string))
    ensures Count(EncodePair(entry), '&') == 0 && Count(EncodePair(entry), '=') == 1
  {
    var k, v := EncodeURIComponent(entry.0), EncodeURIComponent(entry.1);
    NoSeparators(entry.0);
    NoSeparators(entry.1);
    assert EncodePair(entry) == k + "=" + v;
    CountAbsent(k, '&');
    CountAbsent(k, '=');
    CountAbsent(v, '&');
    CountAbsent(v, '=');
    CountConcat(k, "=", '&');
    CountConcat(k + "=", v, '&');
    CountConcat(k, "=", '=');
    CountConcat(k + "=", v, '=');
  }

  lemma PairSplit(entry: (string, string))
    ensures '&' !in EncodePair(entry) && EncodePair(entry) != ""
    ensures SplitAtFirst(EncodePair(entry), '=') == (EncodeURIComponent(entry.0), EncodeURIComponent(entry.1))
  {
    var k, v := EncodeURIComponent(entry.0), EncodeURIComponent(entry.1);
    NoSeparators(entry.0);
    NoSeparators(entry.1);
    var s := k + "=" + v;
    assert EncodePair(entry) == s;
    assert s == k + ['='] + v;
    assert s[|k|] == '=';
    IndexOfAfterFree(k, '=', v);
    assert s[..|k|] == k;
    assert s[|k| + 1..] == v;
    assert '&' !in s by {
      assert forall i :: 0 <= i < |s| ==> s[i] == (if i < |k| then k[i] else if i == |k| then '=' else v[i - |k| - 1]);
    }
  }

  /** In `p + [sep] + q` with `sep` not in `p`, the first `sep` sits right after `p`. */
  lemma {:induction false} IndexOfAfterFree(p: string, sep: char, q: string)
    requires sep !in p
    ensures IndexOf(p + [sep] + q, sep) == Some(|p|)
  {
    if p != [] {
      assert (p + [sep] + q)[1..] == p[1..] + [sep] + q;
      IndexOfAfterFree(p[1..], sep, q);
    }
  }

  /** Splitting undoes joining when no part holds the separator. */
  lemma {:induction false} SplitJoin(parts: seq<string>, sep: char)
    requires |parts| >= 1
    requires forall i :: 0 <= i < |parts| ==> sep !in parts[i]
    ensures Split(Join(parts, sep), sep) == parts
  {
    if |parts| == 1 {
      assert Join(parts, sep) == parts[0];
    } else {
      var rest := Join(parts[1..], sep);
      IndexOfAfterFree(parts[0], sep, rest);
      var s := parts[0] + [sep] + rest;
      assert s[..|parts[0]|] == parts[0];
      assert s[|parts[0]| + 1..] == rest;
      SplitJoin(parts[1..], sep);
      assert [parts[0]] + parts[1..] == parts;
    }
  }

  /** Joining n parts free of `sep` puts n-1 copies of it in between. */
  lemma {:induction false} CountJoin(parts: seq<string>, sep: char, c: char)
    requires |parts| >= 1
    ensures Count(Join(parts, sep), c) ==
      SumCounts(parts, c) + (if sep == c then |parts| - 1 else 0)
  {
    if |parts| > 1 {
      CountConcat(parts[0] + [sep], Join(parts[1..], sep), c);
      CountConcat(parts[0], [sep], c);
      CountJoin(parts[1..], sep, c);
    }
  }

  function SumCounts(parts: seq<string>, c: char): nat
  {
    if parts == [] then 0 else Count(parts[0], c) + SumCounts(parts[1..], c)
  }

  lemma {:induction false} SumCountsOfPairs(data: Record)
    ensures SumCounts(EncodedPairs(data), '&') == 0 && SumCounts(EncodedPairs(data), '=') == |data|
  {
    var parts := EncodedPairs(data);
    if data != [] {
      PairCounts(data[0]);
      SumCountsOfPairs(data[1..]);
      assert parts[1..] == EncodedPairs(data[1..]);
    }
  }

  /** The body of a record with a first entry: that entry's pair, then '&' and the rest's body if there is one. */
  lemma EncodeCons(entry: (string, string), rest: Record)
    ensures Encode([entry] + rest) ==
      if rest == [] then EncodePair(entry) else EncodePair(entry) + "&" + Encode(rest)
  {
    assert ([entry] + rest)[1..] == rest;
  }

  /** The body of an empty record is empty. */
  lemma EncodeEmpty()
    ensures Encode([]) == ""
  {
  }

  /**
   * A body of n >= 1 pairs holds exactly n-1 literal '&' and n literal '=':
   * encodeURIComponent escapes both inside keys and values.
   */
  lemma SeparatorCounts(data: Record)
    requires |data| >= 1
    ensures Count(Encode(data), '&') == |data| - 1
    ensures Count(Encode(data), '=') == |data|
  {
    var parts := EncodedPairs(data);
    SumCountsOfPairs(data);
    CountJoin(parts, '&', '&');
    CountJoin(parts, '&', '=');
  }

  /** One encoded pair in front of further pieces parses to its entry in front of what they parse to. */
  lemma ParseEncodedPair(entry: (string, string), more: seq<string>)
    ensures ParseParts([EncodePair(entry)] + more) ==
      match ParseParts(more)
      case Some(tail) => Some([entry] + tail)
      case None => None
  {
    var (k, v) := entry;
    var parts := [EncodePair(entry)] + more;
    PairSplit(entry);
    assert parts[0] == EncodePair(entry) && parts[1..] == more;
    NoSeparators(k);
    NoSeparators(v);
    PlusToSpaceIdentity(EncodeURIComponent(k));
    PlusToSpaceIdentity(EncodeURIComponent(v));
    ComponentRoundTrip(k);
    ComponentRoundTrip(v);
  }

  lemma {:induction false} ParsePairs(data: Record)
    ensures ParseParts(EncodedPairs(data)) == Some(data)
  {
    if data != [] {
      ParsePairs(data[1..]);
      ParseEncodedPair(data[0], EncodedPairs(data[1..]));
      assert [data[0]] + data[1..] == data;
    }
  }

  lemma PlusToSpaceIdentity(s: string)
    requires '+' !in s
    ensures PlusToSpace(s) == s
  {
  }

  /** Round trip: parsing the encoded body recovers the record's entries, in order. */
  lemma RoundTrip(data: Record)
    ensures ParseForm(Encode(data)) == Some(data)
  {
    var parts := EncodedPairs(data);
    if data == [] {
      assert Split("", '&') == [""];
    } else {
      forall i | 0 <= i < |parts|
        ensures '&' !in parts[i]
      {
        EncodedPairsAt(data, i);
        PairSplit(data[i]);
      }
      SplitJoin(parts, '&');
      ParsePairs(data);
    }
  }
}
