/**
 * Reading the search queries of search-instances.py: each line of the input
 * file, stripped of surrounding whitespace, is either an IPv4 address or an
 * instance id.
 */
module QueryInput {
  import opened Common

  // ---------------------------------------------------------------------------
  // str.strip()

  /** Whitespace as str.strip() sees it, restricted to the ASCII range. */
  predicate IsSpace(c: char)
  {
    c == ' ' || ('\t' <= c <= '\r') || (28 <= c as int <= 31)
  }

  /** s[i..j] is all whitespace. */
  predicate SpaceBetween(s: string, i: int, j: int)
    requires 0 <= i <= j <= |s|
  {
    forall k :: i <= k < j ==> IsSpace(s[k])
  }

  /** The index of the first non-whitespace character of `s` at or after `i`, or |s|. */
  function SkipLeading(s: string, i: nat): (b: nat)
    requires i <= |s|
    ensures i <= b <= |s| && SpaceBetween(s, i, b)
    ensures b == |s| || !IsSpace(s[b])
    decreases |s| - i
  {
    if i < |s| && IsSpace(s[i]) then SkipLeading(s, i + 1) else i
  }

  /** The end of s[lo..j] once its trailing whitespace is cut off. */
  function SkipTrailing(s: string, lo: nat, j: nat): (e: nat)
    requires lo <= j <= |s|
    ensures lo <= e <= j && SpaceBetween(s, e, j)
    ensures e == lo || !IsSpace(s[e - 1])
  {
    if lo < j && IsSpace(s[j - 1]) then SkipTrailing(s, lo, j - 1) else j
  }

  /**
   * str.strip(): the longest run of `s` that neither starts nor ends with
   * whitespace, once all leading and trailing whitespace is cut off.
   */
  function Strip(s: string): (r: string)
    ensures r == [] || (!IsSpace(r[0]) && !IsSpace(r[|r| - 1]))
    ensures exists i, j :: 0 <= i <= j <= |s| && r == s[i..j] && SpaceBetween(s, 0, i) && SpaceBetween(s, j, |s|)
  {
    var i := SkipLeading(s, 0);
    var j := SkipTrailing(s, i, |s|);
    s[i..j]
  }

  /** The stripped lines of a file, in file order. */
  function Stripped(entries: seq<string>): (r: seq<string>)
    ensures |r| == |entries|
  {
    if entries == [] then [] else Stripped(entries[..|entries| - 1]) + [Strip(entries[|entries| - 1])]
  }

  lemma StrippedStep(entries: seq<string>, i: nat)
    requires i < |entries|
    ensures Stripped(entries[..i + 1]) == Stripped(entries[..i]) + [Strip(entries[i])]
  {
    assert entries[..i + 1][..i] == entries[..i];
  }

  lemma FilterStep(p: string -> bool, done: seq<string>, entry: string)
    ensures Filter(p, done + [entry]) == Filter(p, done) + (if p(entry) then [entry] else [])
  {
    FilterAppend(p, done, [entry]);
  }

  // ---------------------------------------------------------------------------
  // str.split('.') and the dotted-quad test

  /** str.split(sep): the pieces between separators, empty pieces included. */
  function Split(s: string, sep: char): (fields: seq<string>)
    ensures |fields| >= 1
    ensures forall k :: 0 <= k < |fields| ==> sep !in fields[k]
  {
    if s == [] then [""]
    else
      var rest := Split(s[1..], sep);
      if s[0] == sep then [""] + rest else [[s[0]] + rest[0]] + rest[1..]
  }

  /** sep.join(fields) */
  function Join(fields: seq<string>, sep: char): string
    requires |fields| >= 1
  {
    if |fields| == 1 then fields[0] else fields[0] + [sep] + Join(fields[1..], sep)
  }

  lemma JoinEmptyHead(rest: seq<string>, sep: char)
    requires |rest| >= 1
    ensures Join([""] + rest, sep) == [sep] + Join(rest, sep)
  {
    assert ([""] + rest)[1..] == rest;
  }

  lemma JoinGlued(c: char, rest: seq<string>, sep: char)
    requires |rest| >= 1
    ensures Join([[c] + rest[0]] + rest[1..], sep) == [c] + Join(rest, sep)
  {
    var fields := [[c] + rest[0]] + rest[1..];
    if |rest| > 1 {
      assert fields[1..] == rest[1..];
    }
  }

  /** Splitting loses nothing: joining the pieces with the separator gives the string back. */
  lemma {:induction false} JoinSplit(s: string, sep: char)
    ensures Join(Split(s, sep), sep) == s
  {
    if s != [] {
      var rest := Split(s[1..], sep);
      JoinSplit(s[1..], sep);
      if s[0] == sep {
        JoinEmptyHead(rest, sep);
      } else {
        JoinGlued(s[0], rest, sep);
      }
      assert s == [s[0]] + s[1..];
    }
  }

  /** Every character of a joined string is the separator or a character of one of the pieces. */
  lemma {:induction false} JoinChars(fields: seq<string>, sep: char, c: char)
    requires |fields| >= 1
    requires c in Join(fields, sep)
    ensures c == sep || exists k :: 0 <= k < |fields| && c in fields[k]
  {
    if |fields| > 1 {
      if c !in fields[0] && c != sep {
        JoinChars(fields[1..], sep, c);
        var k :| 0 <= k < |fields| - 1 && c in fields[1..][k];
        assert c in fields[k + 1];
      }
    }
  }

  predicate IsDigit(c: char)
  {
    '0' <= c <= '9'
  }

  predicate AllDigits(s: string)
  {
    forall k :: 0 <= k < |s| ==> IsDigit(s[k])
  }

  /** int(s, 10) for a string of decimal digits. */
  function DecimalValue(s: string): (n: nat)
    requires AllDigits(s)
  {
    if s == [] then 0 else 10 * DecimalValue(s[..|s| - 1]) + (s[|s| - 1] as int - '0' as int)
  }

  /**
   * One octet as ipaddress accepts it: one to three ASCII digits, no leading
   * zero unless the octet is "0", value at most 255.
   */
  predicate IsOctet(o: string)
  {
    1 <= |o| <= 3 && AllDigits(o) && (o[0] == '0' ==> |o| == 1) && DecimalValue(o) <= 255
  }

  /**
   * is_ipv4: ipaddress.IPv4Address(s) parses. This is a dotted-quad
   * approximation of the library's string parser: exactly four
   * '.'-separated octets.
   */
  predicate IsIPv4(s: string)
  {
    var fields := Split(s, '.');
    |fields| == 4 && forall k :: 0 <= k < 4 ==> IsOctet(fields[k])
  }

  /** A line that is not an address is taken as an instance id. */
  predicate IsInstanceQuery(s: string)
  {
    !IsIPv4(s)
  }

  /** An address is made of digits and dots only, so no `i-...` instance id is ever taken for one. */
  lemma IPv4Chars(s: string)
    requires IsIPv4(s)
    ensures forall k :: 0 <= k < |s| ==> s[k] == '.' || IsDigit(s[k])
  {
    var fields := Split(s, '.');
    JoinSplit(s, '.');
    forall k | 0 <= k < |s|
      ensures s[k] == '.' || IsDigit(s[k])
    {
      JoinChars(fields, '.', s[k]);
      if s[k] != '.' {
        var f :| 0 <= f < |fields| && s[k] in fields[f];
        var m :| 0 <= m < |fields[f]| && fields[f][m] == s[k];
      }
    }
  }

  /** A piece without the separator comes out of split() whole. */
  lemma {:induction false} SplitPiece(a: string, sep: char, b: string)
    requires sep !in a
    ensures Split(a, sep) == [a]
    ensures Split(a + [sep] + b, sep) == [a] + Split(b, sep)
  {
    if a == [] {
      assert [sep] + b == [sep] + b;
      assert ([sep] + b)[1..] == b;
    } else {
      SplitPiece(a[1..], sep, b);
      assert (a + [sep] + b)[1..] == a[1..] + [sep] + b;
      assert [a[0]] + a[1..] == a;
    }
  }

  /** An octet holds no dot. */
  lemma OctetNoDot(o: string)
    requires IsOctet(o)
    ensures '.' !in o
  {
    forall k | 0 <= k < |o|
      ensures o[k] != '.'
    {
      assert IsDigit(o[k]);
    }
  }

  /** Four dot-free pieces joined by dots split back into those pieces. */
  lemma SplitQuad(a: string, b: string, c: string, d: string)
    requires '.' !in a && '.' !in b && '.' !in c && '.' !in d
    ensures Split(a + "." + (b + "." + (c + "." + d)), '.') == [a, b, c, d]
  {
    var cd := c + "." + d;
    var bcd := b + "." + cd;
    SplitPiece(d, '.', "");
    SplitPiece(c, '.', d);
    assert Split(cd, '.') == [c, d];
    SplitPiece(b, '.', cd);
    assert Split(bcd, '.') == [b, c, d];
    SplitPiece(a, '.', bcd);
  }

  /** Four octets joined by dots make an address. */
  lemma DottedQuad(a: string, b: string, c: string, d: string)
    requires IsOctet(a) && IsOctet(b) && IsOctet(c) && IsOctet(d)
    ensures IsIPv4(a + "." + (b + "." + (c + "." + d)))
  {
    OctetNoDot(a);
    OctetNoDot(b);
    OctetNoDot(c);
    OctetNoDot(d);
    SplitQuad(a, b, c, d);
  }

  /** A string whose text before the first dot is not an octet is not an address. */
  lemma BadFirstOctet(a: string, rest: string)
    requires '.' !in a && !IsOctet(a)
    ensures !IsIPv4(a + "." + rest)
  {
    SplitPiece(a, '.', rest);
    assert Split(a + "." + rest, '.')[0] == a;
  }

  lemma AddressOctets()
    ensures IsOctet("10") && IsOctet("0") && IsOctet("5")
  {
    assert "10"[..1] == "1" && "1"[..0] == "";
    assert "5"[..0] == "" && "0"[..0] == "";
  }

  lemma AddressExample()
    ensures IsIPv4("10.0.0.5")
  {
    AddressOctets();
    DottedQuad("10", "0", "0", "5");
    assert "10" + "." + ("0" + "." + ("0" + "." + "5")) == "10.0.0.5";
  }

  lemma OutOfRangeOctet()
    ensures !IsOctet("999")
  {
    assert "999"[..2] == "99" && "99"[..1] == "9" && "9"[..0] == "";
  }

  lemma OutOfRangeExample()
    ensures !IsIPv4("999.999.999.999")
  {
    OutOfRangeOctet();
    BadFirstOctet("999", "999.999.999");
    assert "999" + "." + "999.999.999" == "999.999.999.999";
  }

  lemma InstanceIdExample()
    ensures !IsIPv4("i-0123456789abcdef0")
  {
    SplitPiece("i-0123456789abcdef0", '.', "");
  }

  // ---------------------------------------------------------------------------
  // parse_input_file

  /**
   * parse_input_file over the lines of the file: each stripped line goes to
   * the address list when it is an IPv4 address and to the instance list
   * otherwise, in file order.
   */
  method ParseInputFile(entries: seq<string>) returns (ipList: seq<string>, instanceList: seq<string>)
    ensures ipList == Filter(IsIPv4, Stripped(entries))
    ensures instanceList == Filter(IsInstanceQuery, Stripped(entries))
  {
    ipList := [];
    instanceList := [];
    for i := 0 to |entries|
      invariant ipList == Filter(IsIPv4, Stripped(entries[..i]))
      invariant instanceList == Filter(IsInstanceQuery, Stripped(entries[..i]))
    {
      var entry := Strip(entries[i]);
      StrippedStep(entries, i);
      FilterStep(IsIPv4, Stripped(entries[..i]), entry);
      FilterStep(IsInstanceQuery, Stripped(entries[..i]), entry);
      if IsIPv4(entry) {
        ipList := ipList + [entry];
      } else {
        instanceList := instanceList + [entry];
      }
    }
    assert entries[..|entries|] == entries;
  }

  /**
   * Every stripped line lands in exactly one of the two lists, in the address
   * list exactly when it is an address, and each list keeps file order.
   */
  lemma ParseInputFileSpec(entries: seq<string>)
    ensures var ips := Filter(IsIPv4, Stripped(entries));
            var ids := Filter(IsInstanceQuery, Stripped(entries));
            && multiset(ips) + multiset(ids) == multiset(Stripped(entries))
            && |ips| + |ids| == |entries|
            && (forall s :: s in ips <==> s in Stripped(entries) && IsIPv4(s))
            && (forall s :: s in ids <==> s in Stripped(entries) && !IsIPv4(s))
            && IsSublist(ips, Stripped(entries))
            && IsSublist(ids, Stripped(entries))
  {
    FilterPartition(IsIPv4, IsInstanceQuery, Stripped(entries));
    FilterIsSublist(IsIPv4, Stripped(entries));
    FilterIsSublist(IsInstanceQuery, Stripped(entries));
  }
}
