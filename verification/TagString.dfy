/** buildTagstring() of plctags.cpp, and its round trip through the attribute parser. */
module TagString {
  import opened Basics
  import opened Splitter
  import opened Attr

  const MODBUS: string := "modbus_tcp"

  // ---- decimal numbers, as the stream operator prints them

  function Digits(n: nat): (s: string)
    ensures s != [] && forall c :: c in s ==> '0' <= c <= '9'
  {
    var last := ('0' as int + n % 10) as char;
    if n < 10 then [last] else Digits(n / 10) + [last]
  }

  function Decimal(n: int): (s: string)
    ensures s != []
  {
    if n < 0 then "-" + Digits(-n) else Digits(n)
  }

  function DigitsValue(s: string): int {
    if s == [] then 0 else 10 * DigitsValue(s[..|s| - 1]) + (s[|s| - 1] as int - '0' as int)
  }

  function Value(s: string): int {
    if s != [] && s[0] == '-' then -DigitsValue(s[1..]) else DigitsValue(s)
  }

  lemma {:induction false} DigitsRoundTrip(n: nat)
    ensures DigitsValue(Digits(n)) == n
  {
    if n >= 10 {
      DigitsRoundTrip(n / 10);
      var last := ('0' as int + n % 10) as char;
      assert (Digits(n / 10) + [last])[..|Digits(n / 10)|] == Digits(n / 10);
    } else {
      assert Digits(n)[..0] == [];
    }
  }

  /** The count can be read back. */
  lemma DecimalRoundTrip(n: int)
    ensures Value(Decimal(n)) == n
  {
    if n < 0 {
      DigitsRoundTrip(-n);
      assert Decimal(n)[1..] == Digits(-n);
    } else {
      DigitsRoundTrip(n);
      assert Digits(n)[0] in Digits(n);
    }
  }

  // ---- the printer

  function BuildTagString(gateway: string, tagname: string, count: int, path: string, cpu: string, protocol: string)
      : string
  {
    var loc := "protocol=" + protocol + "&gateway=" + gateway + "&name=" + tagname + "&elem_count=" + Decimal(count);
    if protocol == MODBUS then loc + "&path=0" else loc + "&cpu=" + cpu + "&path=" + path
  }

  /** One string of each shape. */
  lemma PlcExample()
    ensures BuildTagString("plc", "n7", 12, "1", "lgx", "eip")
         == "protocol=eip&gateway=plc&name=n7&elem_count=12&cpu=lgx&path=1"
  {
    hide Decimal;
    DecimalExamples();
    var s0 := "protocol=" + "eip";
    assert s0 == "protocol=eip";
    var s1 := s0 + "&gateway=" + "plc";
    assert s1 == "protocol=eip&gateway=plc";
    var s2 := s1 + "&name=" + "n7";
    assert s2 == "protocol=eip&gateway=plc&name=n7";
    var s3 := s2 + "&elem_count=" + "12";
    assert s3 == "protocol=eip&gateway=plc&name=n7&elem_count=12";
    var s4 := s3 + "&cpu=" + "lgx";
    assert s4 == "protocol=eip&gateway=plc&name=n7&elem_count=12&cpu=lgx";
    var s5 := s4 + "&path=" + "1";
    assert s5 == "protocol=eip&gateway=plc&name=n7&elem_count=12&cpu=lgx&path=1";
  }

  lemma ModbusExample()
    ensures BuildTagString("plc", "hr7", -1, "1", "lgx", "modbus_tcp")
         == "protocol=modbus_tcp&gateway=plc&name=hr7&elem_count=-1&path=0"
  {
    hide Decimal;
    DecimalExamples();
    var s0 := "protocol=" + "modbus_tcp";
    assert s0 == "protocol=modbus_tcp";
    var s1 := s0 + "&gateway=" + "plc";
    assert s1 == "protocol=modbus_tcp&gateway=plc";
    var s2 := s1 + "&name=" + "hr7";
    assert s2 == "protocol=modbus_tcp&gateway=plc&name=hr7";
    var s3 := s2 + "&elem_count=" + "-1";
    assert s3 == "protocol=modbus_tcp&gateway=plc&name=hr7&elem_count=-1";
    var s4 := s3 + "&path=0";
    assert s4 == "protocol=modbus_tcp&gateway=plc&name=hr7&elem_count=-1&path=0";
  }

  lemma DecimalExamples()
    ensures Decimal(12) == "12" && Decimal(-1) == "-1"
  {
    assert Digits(1) == "1";
    assert Digits(12) == Digits(1) + ['2'];
  }

  /** The attributes that the string is meant to carry. */
  function Intended(gateway: string, tagname: string, count: int, path: string, cpu: string, protocol: string)
      : map<string, string>
  {
    var common := map["protocol" := protocol, "gateway" := gateway, "name" := tagname, "elem_count" := Decimal(count)];
    if protocol == MODBUS then common["path" := "0"] else common["cpu" := cpu]["path" := path]
  }

  predicate Clean(v: string) {
    v != [] && '&' !in v
  }

  /** What a caller must see to: no field that is printed is empty or contains '&'. */
  predicate FieldsClean(gateway: string, tagname: string, path: string, cpu: string, protocol: string) {
    Clean(protocol) && Clean(gateway) && Clean(tagname) && (protocol != MODBUS ==> Clean(cpu) && Clean(path))
  }

  function Pair(key: string, value: string): string {
    key + "=" + value
  }

  /** The pieces that every string has. */
  function CommonPieces(gateway: string, tagname: string, count: int, protocol: string): seq<string> {
    [Pair("protocol", protocol), Pair("gateway", gateway), Pair("name", tagname), Pair("elem_count", Decimal(count))]
  }

  function Pieces(gateway: string, tagname: string, count: int, path: string, cpu: string, protocol: string)
      : seq<string>
  {
    CommonPieces(gateway, tagname, count, protocol)
    + if protocol == MODBUS then [Pair("path", "0")] else [Pair("cpu", cpu), Pair("path", path)]
  }

  lemma {:induction false} JoinSnoc(pieces: seq<string>, last: string)
    requires pieces != []
    ensures Join(pieces + [last], AMPERSAND) == Join(pieces, AMPERSAND) + AMPERSAND + last
  {
    var all := pieces + [last];
    if |pieces| == 1 {
      assert all[1..] == [last];
    } else {
      JoinSnoc(pieces[1..], last);
      assert all[1..] == pieces[1..] + [last] && all[0] == pieces[0];
      assert pieces[0] + AMPERSAND + (Join(pieces[1..], AMPERSAND) + AMPERSAND + last)
          == (pieces[0] + AMPERSAND + Join(pieces[1..], AMPERSAND)) + AMPERSAND + last;
    }
  }

  /** Pieces without '&', joined by it, come apart again as they were. */
  lemma SplitOfJoin(pieces: seq<string>)
    requires pieces != [] && NUL !in Join(pieces, AMPERSAND)
    requires forall i :: 0 <= i < |pieces| ==> Clean(pieces[i])
    ensures Kept(Gaps(Join(pieces, AMPERSAND), 0, AMPERSAND)) == pieces
  {
    var s := Join(pieces, AMPERSAND);
    forall k | 0 <= k < |pieces|
      ensures Free(pieces[k], AMPERSAND, AMPERSAND) && Free(pieces[k], [], AMPERSAND)
    {
      CleanIsFree(pieces[k], AMPERSAND);
      CleanIsFree(pieces[k], []);
    }
    assert s[0..] == s;
    SplitIsUnique(s, 0, AMPERSAND, pieces);
    AllKept(pieces);
  }

  lemma OccursChar(s: string, i: nat)
    ensures Occurs(s, i, AMPERSAND) <==> i < |s| && s[i] == '&'
  {
    if i < |s| {
      assert s[i..i + 1] == [s[i]];
    }
  }

  lemma CleanIsFree(piece: string, tail: string)
    requires Clean(piece)
    ensures Free(piece, tail, AMPERSAND)
  {
    forall i | 0 <= i < |piece|
      ensures !Occurs(piece + tail, i, AMPERSAND)
    {
      OccursChar(piece + tail, i);
    }
  }

  lemma {:induction false} AllKept(pieces: seq<string>)
    requires forall i :: 0 <= i < |pieces| ==> pieces[i] != []
    ensures Kept(pieces) == pieces
  {
    if pieces != [] {
      var n := |pieces| - 1;
      AllKept(pieces[..n]);
      assert pieces == pieces[..n] + [pieces[n]];
    }
  }

  lemma {:induction false} IndexOfIs(s: string, c: char, p: nat)
    requires p < |s| && s[p] == c && c !in s[..p]
    ensures IndexOf(s, c) == p
  {
    if p > 0 {
      assert s[0] == s[..p][0];
      assert s[1..][..p - 1] == s[..p][1..];
      IndexOfIs(s[1..], c, p - 1);
    }
  }

  predicate PlainKey(key: string) {
    key != [] && SPACE !in key && '=' !in key
  }

  /** A key without spaces or '=', and any value, survive the parser. */
  lemma ParseOfPair(key: string, value: string)
    requires PlainKey(key) && value != []
    ensures ParsePair(Pair(key, value)) == Some((key, value))
  {
    var pair := Pair(key, value);
    var eq := |key|;
    assert pair[..eq] == key && pair[eq] == '=';
    IndexOfIs(pair, '=', eq);
    assert pair[..eq] == key && pair[eq + 1..] == value;
    assert TrimLeft(key) == key && TrimRight(key) == key;
  }

  lemma ParseSnoc(pairs: seq<string>, m: map<string, string>, key: string, value: string)
    requires ParsePairs(pairs) == Some(m)
    requires PlainKey(key) && value != []
    ensures ParsePairs(pairs + [Pair(key, value)]) == Some(m[key := value])
  {
    ParseOfPair(key, value);
    assert (pairs + [Pair(key, value)])[..|pairs|] == pairs;
  }

  // ---- the round trip

  /** One more field on the stream is one more piece to join. */
  lemma StreamField(pieces: seq<string>, lead: string, key: string, value: string)
    requires pieces != [] && lead == AMPERSAND + key + "="
    ensures Join(pieces, AMPERSAND) + lead + value == Join(pieces + [Pair(key, value)], AMPERSAND)
  {
    JoinSnoc(pieces, Pair(key, value));
    Reassociate(Join(pieces, AMPERSAND), AMPERSAND, key, "=", value);
  }

  lemma Reassociate(a: string, b: string, c: string, d: string, e: string)
    ensures a + (b + c + d) + e == a + b + (c + d + e)
  {
  }

  lemma CommonIsJoin(gateway: string, tagname: string, count: int, protocol: string)
    ensures "protocol=" + protocol + "&gateway=" + gateway + "&name=" + tagname + "&elem_count=" + Decimal(count)
         == Join(CommonPieces(gateway, tagname, count, protocol), AMPERSAND)
  {
    hide Decimal;
    var p1 := [Pair("protocol", protocol)];
    var p2 := p1 + [Pair("gateway", gateway)];
    var p3 := p2 + [Pair("name", tagname)];
    assert Join(p1, AMPERSAND) == "protocol=" + protocol;
    StreamField(p1, "&gateway=", "gateway", gateway);
    StreamField(p2, "&name=", "name", tagname);
    StreamField(p3, "&elem_count=", "elem_count", Decimal(count));
    assert p3 + [Pair("elem_count", Decimal(count))] == CommonPieces(gateway, tagname, count, protocol);
  }

  lemma BuildIsJoin(gateway: string, tagname: string, count: int, path: string, cpu: string, protocol: string)
    ensures BuildTagString(gateway, tagname, count, path, cpu, protocol)
         == Join(Pieces(gateway, tagname, count, path, cpu, protocol), AMPERSAND)
  {
    hide Decimal, Join;
    var common := CommonPieces(gateway, tagname, count, protocol);
    CommonIsJoin(gateway, tagname, count, protocol);
    if protocol == MODBUS {
      StreamField(common, "&path=", "path", "0");
      assert Join(common, AMPERSAND) + "&path=0" == Join(common, AMPERSAND) + "&path=" + "0";
    } else {
      StreamField(common, "&cpu=", "cpu", cpu);
      StreamField(common + [Pair("cpu", cpu)], "&path=", "path", path);
      assert common + [Pair("cpu", cpu)] + [Pair("path", path)] == common + [Pair("cpu", cpu), Pair("path", path)];
    }
  }

  lemma KeysArePlain()
    ensures PlainKey("protocol") && PlainKey("gateway") && PlainKey("name")
    ensures PlainKey("elem_count") && PlainKey("path") && PlainKey("cpu")
  {
  }

  lemma CommonParse(gateway: string, tagname: string, count: int, protocol: string)
    requires Clean(gateway) && Clean(tagname) && Clean(protocol)
    ensures ParsePairs(CommonPieces(gateway, tagname, count, protocol))
         == Some(map["protocol" := protocol, "gateway" := gateway, "name" := tagname, "elem_count" := Decimal(count)])
  {
    hide PlainKey, Pair, ParsePairs, Decimal;
    KeysArePlain();
    NothingParsed();
    var p1 := [Pair("protocol", protocol)];
    var p2 := p1 + [Pair("gateway", gateway)];
    var p3 := p2 + [Pair("name", tagname)];
    assert [] + p1 == p1;
    ParseSnoc([], map[], "protocol", protocol);
    ParseSnoc(p1, map["protocol" := protocol], "gateway", gateway);
    ParseSnoc(p2, map["protocol" := protocol, "gateway" := gateway], "name", tagname);
    ParseSnoc(p3, map["protocol" := protocol, "gateway" := gateway, "name" := tagname], "elem_count", Decimal(count));
    assert p3 + [Pair("elem_count", Decimal(count))] == CommonPieces(gateway, tagname, count, protocol);
  }

  lemma NothingParsed()
    ensures ParsePairs([]) == Some(map[])
  {
  }

  lemma PiecesParse(gateway: string, tagname: string, count: int, path: string, cpu: string, protocol: string)
    requires FieldsClean(gateway, tagname, path, cpu, protocol)
    ensures ParsePairs(Pieces(gateway, tagname, count, path, cpu, protocol))
         == Some(Intended(gateway, tagname, count, path, cpu, protocol))
  {
    hide PlainKey, Pair, ParsePairs, Decimal, CommonPieces;
    KeysArePlain();
    var common := CommonPieces(gateway, tagname, count, protocol);
    var m := map["protocol" := protocol, "gateway" := gateway, "name" := tagname, "elem_count" := Decimal(count)];
    CommonParse(gateway, tagname, count, protocol);
    if protocol == MODBUS {
      ParseSnoc(common, m, "path", "0");
    } else {
      ParseSnoc(common, m, "cpu", cpu);
      ParseSnoc(common + [Pair("cpu", cpu)], m["cpu" := cpu], "path", path);
      assert common + [Pair("cpu", cpu)] + [Pair("path", path)] == common + [Pair("cpu", cpu), Pair("path", path)];
    }
  }

  lemma PiecesClean(gateway: string, tagname: string, count: int, path: string, cpu: string, protocol: string)
    requires FieldsClean(gateway, tagname, path, cpu, protocol)
    ensures forall p :: p in Pieces(gateway, tagname, count, path, cpu, protocol) ==> Clean(p)
  {
  }

  /** No value that the parser accepts is empty or contains '&'. */
  lemma {:induction false} ParsedValuesAreClean(pairs: seq<string>, k: string)
    requires forall i :: 0 <= i < |pairs| ==> '&' !in pairs[i]
    requires ParsePairs(pairs).Some? && k in ParsePairs(pairs).value
    ensures Clean(ParsePairs(pairs).value[k])
  {
    var n := |pairs| - 1;
    if n >= 0 {
      var last := ParsePair(pairs[n]);
      if k != last.value.0 {
        ParsedValuesAreClean(pairs[..n], k);
      } else {
        var eq := IndexOf(pairs[n], '=');
        assert last.value.1 == pairs[n][eq + 1..];
      }
    }
  }

  lemma NoAmpersand(part: string)
    requires forall i :: 0 <= i < |part| ==> !Occurs(part, i, AMPERSAND)
    ensures '&' !in part
  {
    if '&' in part {
      var j :| 0 <= j < |part| && part[j] == '&';
      OccursChar(part, j);
    }
  }

  lemma ParsedIsClean(str: string, k: string)
    requires NUL !in str && Parse(str).Some? && k in Parse(str).value
    ensures Clean(Parse(str).value[k])
  {
    hide Kept, Gaps, Occurs;
    var pairs := Kept(Gaps(str, 0, AMPERSAND));
    forall i | 0 <= i < |pairs|
      ensures '&' !in pairs[i]
    {
      PartsAreClean(str, AMPERSAND, i);
      NoAmpersand(pairs[i]);
    }
    ParsedValuesAreClean(pairs, k);
  }

  /** The parser gives back the fields printed exactly when none is empty or contains '&'. */
  lemma RoundTripIff(gateway: string, tagname: string, count: int, path: string, cpu: string, protocol: string)
    requires NUL !in gateway && NUL !in tagname && NUL !in path && NUL !in cpu && NUL !in protocol
    ensures Parse(BuildTagString(gateway, tagname, count, path, cpu, protocol))
            == Some(Intended(gateway, tagname, count, path, cpu, protocol))
       <==> FieldsClean(gateway, tagname, path, cpu, protocol)
  {
    var str := BuildTagString(gateway, tagname, count, path, cpu, protocol);
    var m := Intended(gateway, tagname, count, path, cpu, protocol);
    NoTerminator(gateway, tagname, count, path, cpu, protocol);
    if FieldsClean(gateway, tagname, path, cpu, protocol) {
      BuildIsJoin(gateway, tagname, count, path, cpu, protocol);
      PiecesClean(gateway, tagname, count, path, cpu, protocol);
      PiecesParse(gateway, tagname, count, path, cpu, protocol);
      SplitOfJoin(Pieces(gateway, tagname, count, path, cpu, protocol));
    } else if Parse(str) == Some(m) {
      ParsedIsClean(str, "protocol");
      ParsedIsClean(str, "gateway");
      ParsedIsClean(str, "name");
      ParsedIsClean(str, "path");
      if protocol != MODBUS {
        ParsedIsClean(str, "cpu");
      }
    }
  }

  lemma NoTerminator(gateway: string, tagname: string, count: int, path: string, cpu: string, protocol: string)
    requires NUL !in gateway && NUL !in tagname && NUL !in path && NUL !in cpu && NUL !in protocol
    ensures NUL !in BuildTagString(gateway, tagname, count, path, cpu, protocol)
  {
    var s1 := "protocol=" + protocol;
    var s2 := s1 + "&gateway=" + gateway;
    var s3 := s2 + "&name=" + tagname;
    var s4 := s3 + "&elem_count=" + Decimal(count);
    hide Decimal;
    TextConcat([], "protocol=", protocol);
    TextConcat(s1, "&gateway=", gateway);
    TextConcat(s2, "&name=", tagname);
    NumberIsText(count);
    TextConcat(s3, "&elem_count=", Decimal(count));
    assert [] + "protocol=" == "protocol=";
    if protocol == MODBUS {
      TextConcat(s4, "&path=", "0");
      assert s4 + "&path=0" == s4 + "&path=" + "0";
    } else {
      TextConcat(s4, "&cpu=", cpu);
      TextConcat(s4 + "&cpu=" + cpu, "&path=", path);
    }
  }

  lemma TextConcat(a: string, b: string, c: string)
    requires NUL !in a && NUL !in b && NUL !in c
    ensures NUL !in a + b + c
  {
  }

  lemma NumberIsText(n: int)
    ensures NUL !in Decimal(n)
  {
  }
}
