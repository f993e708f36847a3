/** Python 2's `urlparse.parse_qs` as the resolver calls it (default
    arguments: blank values dropped, lenient parsing), and the
    `setdefault(name, []).append(value)` idiom the resolver uses for its
    argument and file maps. */
module QueryString {
  import opened Wrappers
  import opened Strings

  /** Argument map: each name to its values in order of appearance. */
  type Args = map<string, seq<string>>

  // ---------------------------------------------------------------------------
  // multi-valued maps

  /** `m.setdefault(name, []).append(value)`. */
  function AddValue<V>(m: map<string, seq<V>>, name: string, value: V): (r: map<string, seq<V>>)
    ensures r.Keys == m.Keys + {name}
    ensures r[name] == (if name in m then m[name] else []) + [value]
    ensures forall n :: n in m && n != name ==> r[n] == m[n]
  {
    m[name := (if name in m then m[name] else []) + [value]]
  }

  /** The dictionary built by appending every pair in order. */
  function Group<V>(pairs: seq<(string, V)>): (m: map<string, seq<V>>)
    ensures forall n :: n in m ==> m[n] != []
    decreases |pairs|
  {
    if pairs == [] then map[]
    else
      var last := pairs[|pairs| - 1];
      AddValue(Group(pairs[..|pairs| - 1]), last.0, last.1)
  }

  /** Reference definition: the values paired with `name`, in order. */
  function ValuesOf<V>(pairs: seq<(string, V)>, name: string): seq<V>
    decreases |pairs|
  {
    if pairs == [] then []
    else (if pairs[0].0 == name then [pairs[0].1] else []) + ValuesOf(pairs[1..], name)
  }

  lemma {:induction false} ValuesOfSnoc<V>(pairs: seq<(string, V)>, p: (string, V), name: string)
    ensures ValuesOf(pairs + [p], name) == ValuesOf(pairs, name) + (if p.0 == name then [p.1] else [])
    decreases |pairs|
  {
    if pairs == [] {
      assert [] + [p] == [p];
      assert [p][1..] == [];
    } else {
      assert (pairs + [p])[0] == pairs[0];
      assert (pairs + [p])[1..] == pairs[1..] + [p];
      ValuesOfSnoc(pairs[1..], p, name);
    }
  }

  /** Grouping keeps every value: a name is present exactly when some pair
      carries it, and its list holds all of that name's values, duplicates
      included, in order of appearance. */
  lemma {:induction false} GroupValues<V>(pairs: seq<(string, V)>, name: string)
    ensures name in Group(pairs) <==> ValuesOf(pairs, name) != []
    ensures name in Group(pairs) ==> Group(pairs)[name] == ValuesOf(pairs, name)
    decreases |pairs|
  {
    if pairs != [] {
      var init := pairs[..|pairs| - 1];
      var last := pairs[|pairs| - 1];
      assert pairs == init + [last];
      GroupValues(init, name);
      ValuesOfSnoc(init, last, name);
    }
  }

  // ---------------------------------------------------------------------------
  // decoding

  predicate IsHex(c: char) {
    '0' <= c <= '9' || 'a' <= c <= 'f' || 'A' <= c <= 'F'
  }

  function HexValue(c: char): (v: nat)
    requires IsHex(c)
    ensures v < 16
  {
    if '0' <= c <= '9' then c as int - '0' as int
    else if 'a' <= c <= 'f' then c as int - 'a' as int + 10
    else c as int - 'A' as int + 10
  }

  /** `urllib.unquote`: each '%' followed by two hex digits becomes that
      byte; every other character is kept. */
  function Unquote(s: string): (r: string)
    ensures |r| <= |s|
    ensures s != [] ==> r != []
    ensures '%' !in s ==> r == s
    decreases |s|
  {
    if s == [] then []
    else if |s| >= 3 && s[0] == '%' && IsHex(s[1]) && IsHex(s[2]) then
      [(HexValue(s[1]) * 16 + HexValue(s[2])) as char] + Unquote(s[3..])
    else [s[0]] + Unquote(s[1..])
  }

  /** `s.replace('+', ' ')`. */
  function PlusToSpace(s: string): (r: string)
    ensures |r| == |s|
    ensures forall i :: 0 <= i < |s| ==> r[i] == (if s[i] == '+' then ' ' else s[i])
    decreases |s|
  {
    if s == [] then [] else [if s[0] == '+' then ' ' else s[0]] + PlusToSpace(s[1..])
  }

  /** How `parse_qsl` decodes a name or a value. */
  function Decode(s: string): string {
    Unquote(PlusToSpace(s))
  }

  // ---------------------------------------------------------------------------
  // parse_qsl / parse_qs

  /** The fields of `qs.split('&')`, each further split on ';'. */
  function SplitFields(pieces: seq<string>): seq<string>
    decreases |pieces|
  {
    if pieces == [] then [] else Split(pieces[0], ";") + SplitFields(pieces[1..])
  }

  /** One field: empty fields, fields without '=' and fields with an empty
      value are dropped; otherwise name and value are split at the first '='
      and decoded. */
  function FieldPair(field: string): (r: Option<(string, string)>)
    ensures r.None? <==> field == [] || !Contains(field, "=") || SplitOnce(field, "=")[1] == []
    ensures r.Some? ==> r.value.1 != []
  {
    if field == [] then None
    else
      var nv := SplitOnce(field, "=");
      if |nv| != 2 || nv[1] == [] then None
      else Some((Decode(nv[0]), Decode(nv[1])))
  }

  function FieldPairs(fields: seq<string>): (pairs: seq<(string, string)>)
    ensures forall k :: 0 <= k < |pairs| ==> pairs[k].1 != []
    decreases |fields|
  {
    if fields == [] then []
    else
      match FieldPair(fields[0])
      case None => FieldPairs(fields[1..])
      case Some(p) => [p] + FieldPairs(fields[1..])
  }

  /** `urlparse.parse_qsl(qs)`: blank values are dropped. */
  function ParseQsl(qs: string): (pairs: seq<(string, string)>)
    ensures forall k :: 0 <= k < |pairs| ==> pairs[k].1 != []
  {
    FieldPairs(SplitFields(Split(qs, "&")))
  }

  /** `urlparse.parse_qs(qs)`: every name present has at least one value. */
  function ParseQs(qs: string): (args: Args)
    ensures forall n :: n in args ==> args[n] != []
  {
    Group(ParseQsl(qs))
  }

  /** A repeated key yields all of its values, in order. */
  lemma ParseQsValues(qs: string, name: string)
    ensures name in ParseQs(qs) <==> ValuesOf(ParseQsl(qs), name) != []
    ensures name in ParseQs(qs) ==> ParseQs(qs)[name] == ValuesOf(ParseQsl(qs), name)
  {
    GroupValues(ParseQsl(qs), name);
  }

  // ---------------------------------------------------------------------------
  // an encoder the decoder inverts

  predicate IsAlnum(c: char) {
    '0' <= c <= '9' || 'a' <= c <= 'z' || 'A' <= c <= 'Z'
  }

  /** Byte strings: every character is below 256. */
  predicate IsBytes(s: string) {
    forall i :: 0 <= i < |s| ==> s[i] as int < 256
  }

  function HexDigit(d: nat): (c: char)
    requires d < 16
    ensures IsHex(c) && HexValue(c) == d
  {
    if d < 10 then ('0' as int + d) as char else ('A' as int + d - 10) as char
  }

  /** Percent-encoding of every byte other than an ASCII letter or digit. */
  function Quote(s: string): (r: string)
    requires IsBytes(s)
    ensures '&' !in r && ';' !in r && '=' !in r && '+' !in r
    ensures NoSpace(r)
    ensures r == [] <==> s == []
    decreases |s|
  {
    if s == [] then []
    else
      var c := s[0];
      var head := if IsAlnum(c) then [c] else ['%', HexDigit(c as int / 16), HexDigit(c as int % 16)];
      head + Quote(s[1..])
  }

  lemma UnquoteKept(c: char, rest: string)
    requires !(c == '%')
    ensures Unquote([c] + rest) == [c] + Unquote(rest)
  {
    assert ([c] + rest)[1..] == rest;
  }

  lemma UnquoteEscape(c: char, rest: string)
    requires 0 <= c as int < 256
    ensures Unquote(['%', HexDigit(c as int / 16), HexDigit(c as int % 16)] + rest) == [c] + Unquote(rest)
  {
    var q := ['%', HexDigit(c as int / 16), HexDigit(c as int % 16)] + rest;
    assert q[3..] == rest;
    assert (HexValue(q[1]) * 16 + HexValue(q[2])) as char == c;
  }

  lemma {:induction false} UnquoteOfQuote(s: string)
    requires IsBytes(s)
    ensures Unquote(Quote(s)) == s
    decreases |s|
  {
    if s != [] {
      var c := s[0];
      var rest := Quote(s[1..]);
      UnquoteOfQuote(s[1..]);
      if IsAlnum(c) {
        assert Quote(s) == [c] + rest;
        UnquoteKept(c, rest);
      } else {
        assert Quote(s) == ['%', HexDigit(c as int / 16), HexDigit(c as int % 16)] + rest;
        UnquoteEscape(c, rest);
      }
      assert s == [c] + s[1..];
    }
  }

  lemma PlusToSpaceOfPlusFree(s: string)
    requires '+' !in s
    ensures PlusToSpace(s) == s
  {
  }

  lemma DecodeOfQuote(s: string)
    requires IsBytes(s)
    ensures Decode(Quote(s)) == s
  {
    PlusToSpaceOfPlusFree(Quote(s));
    UnquoteOfQuote(s);
  }

  /** `name=value` with both parts percent-encoded. */
  function EncodePair(p: (string, string)): (field: string)
    requires IsBytes(p.0) && IsBytes(p.1)
    ensures '&' !in field && ';' !in field && NoSpace(field)
  {
    Quote(p.0) + "=" + Quote(p.1)
  }

  function EncodePairs(pairs: seq<(string, string)>): (fields: seq<string>)
    requires forall k :: 0 <= k < |pairs| ==> IsBytes(pairs[k].0) && IsBytes(pairs[k].1)
    ensures |fields| == |pairs|
    ensures forall k :: 0 <= k < |fields| ==> fields[k] == EncodePair(pairs[k])
    decreases |pairs|
  {
    if pairs == [] then [] else [EncodePair(pairs[0])] + EncodePairs(pairs[1..])
  }

  /** A query string built from pairs with non-empty values. */
  function EncodeQuery(pairs: seq<(string, string)>): (qs: string)
    requires forall k :: 0 <= k < |pairs| ==> IsBytes(pairs[k].0) && IsBytes(pairs[k].1)
    ensures NoSpace(qs)
  {
    var fields := EncodePairs(pairs);
    JoinNoSpace(fields, "&");
    Join(fields, "&")
  }

  lemma FieldPairOfEncoded(p: (string, string))
    requires IsBytes(p.0) && IsBytes(p.1) && p.1 != []
    ensures FieldPair(EncodePair(p)) == Some(p)
  {
    var n := Quote(p.0);
    var v := Quote(p.1);
    assert EncodePair(p) == n + ['='] + v;
    FindCharAfter(n, '=', v);
    assert (n + ['='] + v)[..|n|] == n;
    assert (n + ['='] + v)[|n| + 1..] == v;
    DecodeOfQuote(p.0);
    DecodeOfQuote(p.1);
  }

  lemma {:induction false} SplitFieldsOfEncoded(fields: seq<string>)
    requires forall k :: 0 <= k < |fields| ==> ';' !in fields[k]
    ensures SplitFields(fields) == fields
    decreases |fields|
  {
    if fields != [] {
      FindCharAbsent(fields[0], ';');
      SplitFieldsOfEncoded(fields[1..]);
      assert fields == [fields[0]] + fields[1..];
    }
  }

  lemma {:induction false} FieldPairsOfEncoded(pairs: seq<(string, string)>)
    requires forall k :: 0 <= k < |pairs| ==> IsBytes(pairs[k].0) && IsBytes(pairs[k].1) && pairs[k].1 != []
    ensures FieldPairs(EncodePairs(pairs)) == pairs
    decreases |pairs|
  {
    if pairs != [] {
      var fields := EncodePairs(pairs);
      FieldPairOfEncoded(pairs[0]);
      assert fields[1..] == EncodePairs(pairs[1..]);
      FieldPairsOfEncoded(pairs[1..]);
      assert pairs == [pairs[0]] + pairs[1..];
    }
  }

  /** `parse_qsl` inverts the encoder: every pair whose value is non-empty
      comes back, decoded, in its original position. */
  lemma ParseQslOfEncodeQuery(pairs: seq<(string, string)>)
    requires |pairs| >= 1
    requires forall k :: 0 <= k < |pairs| ==> IsBytes(pairs[k].0) && IsBytes(pairs[k].1) && pairs[k].1 != []
    ensures ParseQsl(EncodeQuery(pairs)) == pairs
  {
    var fields := EncodePairs(pairs);
    SplitOfJoin(fields, '&');
    SplitFieldsOfEncoded(fields);
    FieldPairsOfEncoded(pairs);
  }
}
