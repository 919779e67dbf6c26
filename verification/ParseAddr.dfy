/** The splitting part of to_addr_port in parse_addr.c: an address and a port out of one string. */
module ParseAddr {
  import opened CStrings

  datatype Result = Ok(addr: string, port: string) | Einval

  /** s is a bracketed or a plain address, a colon, and a port without colons. */
  ghost predicate Joins(s: string, addr: string, port: string) {
    && ':' !in port
    && (|| s == "[" + addr + "]:" + port
        || (s == addr + ":" + port && (addr == "" || addr[0] != '[')))
  }

  /** c is where the last colon of s is. */
  ghost predicate LastColon(s: string, c: nat) {
    c < |s| && s[c] == ':' && forall k | c < k < |s| :: s[k] != ':'
  }

  lemma NoColonAfter(s: string, c: nat)
    requires c < |s| && s[c] == ':'
    ensures LastColon(s, c) <==> ':' !in s[c + 1..]
  {}

  /** The only way to read s as a joined address and port, given its last colon. */
  ghost predicate SplitAt(s: string, c: nat, addr: string, port: string)
    requires c < |s|
  {
    && port == s[c + 1..]
    && if s[0] == '[' then c >= 2 && s[c - 1] == ']' && addr == s[1..c - 1] else addr == s[..c]
  }

  lemma JoinsIsSplit(s: string, c: nat, addr: string, port: string)
    requires LastColon(s, c)
    ensures Joins(s, addr, port) <==> SplitAt(s, c, addr, port)
  {
    NoColonAfter(s, c);
    if SplitAt(s, c, addr, port) {
      assert s == s[..c] + ":" + s[c + 1..];
      if s[0] == '[' {
        assert s == "[" + s[1..c - 1] + "]:" + s[c + 1..];
      }
    }
    if Joins(s, addr, port) {
      if s == "[" + addr + "]:" + port {
        var d := |addr| + 2;
        assert s[d + 1..] == port && s[1..d - 1] == addr;
        NoColonAfter(s, d);
      } else {
        assert s[|addr| + 1..] == port && s[..|addr|] == addr;
        NoColonAfter(s, |addr|);
        assert addr != "" ==> s[0] == addr[0];
      }
    }
  }

  /** The C string that a pointer to buf[i] denotes. */
  function StringAt(buf: seq<char>, i: nat): string
    requires i <= |buf|
    decreases |buf| - i
  {
    if i == |buf| || buf[i] == '\0' then "" else [buf[i]] + StringAt(buf, i + 1)
  }

  lemma {:induction false} StringUpToNul(buf: seq<char>, i: nat, e: nat)
    requires i <= e < |buf| && buf[e] == '\0' && '\0' !in buf[i..e]
    ensures StringAt(buf, i) == buf[i..e]
    decreases e - i
  {
    if i < e {
      assert buf[i..e] == [buf[i]] + buf[i + 1..e];
      StringUpToNul(buf, i + 1, e);
    }
  }

  /** memrchr over the first len characters: the position of the last c, or -1 for NULL. */
  method Memrchr(buf: array<char>, c: char, len: nat) returns (i: int)
    requires len <= buf.Length
    ensures -1 <= i < len
    ensures 0 <= i ==> buf[i] == c
    ensures forall k | i < k < len :: buf[k] != c
  {
    i := len - 1;
    while 0 <= i && buf[i] != c
      invariant -1 <= i < len
      invariant forall k | i < k < len :: buf[k] != c
    {
      i := i - 1;
    }
  }

  lemma SliceHasNoNul(s: CString, i: nat, e: nat)
    requires i <= e <= |s|
    ensures '\0' !in s[i..e]
  {}

  /** A NUL at e cuts out s[i..e] for a pointer at i. */
  lemma CutString(s: CString, buf: seq<char>, i: nat, e: nat)
    requires i <= e <= |s| && |buf| == |s| + 1 && buf[e] == '\0'
    requires forall k | i <= k < e :: buf[k] == s[k]
    ensures StringAt(buf, i) == s[i..e]
  {
    SliceHasNoNul(s, i, e);
    assert buf[i..e] == s[i..e];
    StringUpToNul(buf, i, e);
  }

  lemma NothingJoins(s: string, addr: string, port: string)
    requires ':' !in s
    ensures !Joins(s, addr, port)
  {}

  /** Accepted with exactly the address and port that the string joins, rejected if there are none. */
  method Split(addrport: CString) returns (r: Result)
    ensures forall addr, port :: Joins(addrport, addr, port) <==> r == Ok(addr, port)
  {
    var len := |addrport|;
    var ipaddr := new char[len + 1](i requires 0 <= i <= len => At(addrport, i));
    assert forall k | 0 <= k < len :: ipaddr[k] == addrport[k];
    assert ipaddr[..] == addrport + ['\0'];
    var colon := Memrchr(ipaddr, ':', len);
    if colon < 0 {
      forall k | 0 <= k < len
        ensures addrport[k] != ':'
      {
        assert ipaddr[k] == addrport[k];
      }
      forall addr, port
        ensures !Joins(addrport, addr, port)
      {
        NothingJoins(addrport, addr, port);
      }
      return Einval;
    }
    forall k | colon <= k < len
      ensures addrport[k] == ':' <==> k == colon
    {
      assert ipaddr[k] == addrport[k];
    }
    forall addr, port
      ensures Joins(addrport, addr, port) <==> SplitAt(addrport, colon, addr, port)
    {
      JoinsIsSplit(addrport, colon, addr, port);
    }
    r := CutAt(ipaddr, addrport, colon);
  }

  /** Writes the NULs into the copy and reads off the two strings. */
  method CutAt(ipaddr: array<char>, ghost s: CString, colon: nat) returns (r: Result)
    requires colon < |s| && s[colon] == ':' && ipaddr[..] == s + ['\0']
    modifies ipaddr
    ensures forall addr, port :: SplitAt(s, colon, addr, port) <==> r == Ok(addr, port)
  {
    ghost var copy := s + ['\0'];
    ipaddr[colon] := '\0';
    assert ipaddr[..] == copy[colon := '\0'];
    assert ipaddr[0] == copy[colon := '\0'][0];
    var tport := colon + 1;
    var taddr := 0;
    if ipaddr[0] == '[' {
      assert s[0] == '[' && colon > 0;
      if ipaddr[tport - 2] != ']' {
        assert s[colon - 1] != ']' || colon < 2;
        return Einval;
      }
      assert s[colon - 1] == ']' && colon >= 2;
      ipaddr[tport - 2] := '\0';
      assert ipaddr[..] == copy[colon := '\0'][colon - 1 := '\0'];
      taddr := 1;
      CutString(s, ipaddr[..], 1, colon - 1);
    } else {
      assert s[0] != '[';
      CutString(s, ipaddr[..], 0, colon);
      assert s[0..colon] == s[..colon];
    }
    CutString(s, ipaddr[..], tport, |s|);
    assert s[tport..|s|] == s[colon + 1..];
    r := Ok(StringAt(ipaddr[..], taddr), StringAt(ipaddr[..], tport));
    assert SplitAt(s, colon, r.addr, r.port);
  }
}
