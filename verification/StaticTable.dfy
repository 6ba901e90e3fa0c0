/** The QPACK static table (Appendix A of RFC 9204) and the search in it. */
module StaticTable {
  import opened Bytes

  type Text = seq<byte>

  const SIZE: nat := 99

  /** The bytes of an ASCII string. */
  function Ascii(s: string): (b: Text)
    ensures |b| == |s|
    ensures forall i :: 0 <= i < |b| ==> b[i] < 0x80
  {
    seq(|s|, i requires 0 <= i < |s| => s[i] as int % 0x80)
  }

  function Entry(index: nat): (e: (Text, Text))
    requires index < SIZE
  {
    var (name, value) := Row(index);
    (Ascii(name), Ascii(value))
  }

  function Row(index: nat): (e: (string, string))
    requires index < SIZE
    ensures |e.0| <= 64 && |e.1| <= 64
  {
    if index < 11 then Rows0(index)
    else if index < 22 then Rows11(index)
    else if index < 33 then Rows22(index)
    else if index < 44 then Rows33(index)
    else if index < 55 then Rows44(index)
    else if index < 66 then Rows55(index)
    else if index < 77 then Rows66(index)
    else if index < 88 then Rows77(index)
    else Rows88(index)
  }

  function Rows0(index: nat): (e: (string, string))
    requires 0 <= index < 11
    ensures |e.0| <= 64 && |e.1| <= 64
  {
    match index
    case 0 => (":authority", "")
    case 1 => (":path", "/")
    case 2 => ("age", "0")
    case 3 => ("content-disposition", "")
    case 4 => ("content-length", "0")
    case 5 => ("cookie", "")
    case 6 => ("date", "")
    case 7 => ("etag", "")
    case 8 => ("if-modified-since", "")
    case 9 => ("if-none-match", "")
    case _ => ("last-modified", "")
  }

  function Rows11(index: nat): (e: (string, string))
    requires 11 <= index < 22
    ensures |e.0| <= 64 && |e.1| <= 64
  {
    match index
    case 11 => ("link", "")
    case 12 => ("location", "")
    case 13 => ("referer", "")
    case 14 => ("set-cookie", "")
    case 15 => (":method", "CONNECT")
    case 16 => (":method", "DELETE")
    case 17 => (":method", "GET")
    case 18 => (":method", "HEAD")
    case 19 => (":method", "OPTIONS")
    case 20 => (":method", "POST")
    case _ => (":method", "PUT")
  }

  function Rows22(index: nat): (e: (string, string))
    requires 22 <= index < 33
    ensures |e.0| <= 64 && |e.1| <= 64
  {
    match index
    case 22 => (":scheme", "http")
    case 23 => (":scheme", "https")
    case 24 => (":status", "103")
    case 25 => (":status", "200")
    case 26 => (":status", "304")
    case 27 => (":status", "404")
    case 28 => (":status", "503")
    case 29 => ("accept", "*/*")
    case 30 => ("accept", "application/dns-message")
    case 31 => ("accept-encoding", "gzip, deflate, br")
    case _ => ("accept-ranges", "bytes")
  }

  function Rows33(index: nat): (e: (string, string))
    requires 33 <= index < 44
    ensures |e.0| <= 64 && |e.1| <= 64
  {
    match index
    case 33 => ("access-control-allow-headers", "cache-control")
    case 34 => ("access-control-allow-headers", "content-type")
    case 35 => ("access-control-allow-origin", "*")
    case 36 => ("cache-control", "max-age=0")
    case 37 => ("cache-control", "max-age=2592000")
    case 38 => ("cache-control", "max-age=604800")
    case 39 => ("cache-control", "no-cache")
    case 40 => ("cache-control", "no-store")
    case 41 => ("cache-control", "public, max-age=31536000")
    case 42 => ("content-encoding", "br")
    case _ => ("content-encoding", "gzip")
  }

  function Rows44(index: nat): (e: (string, string))
    requires 44 <= index < 55
    ensures |e.0| <= 64 && |e.1| <= 64
  {
    match index
    case 44 => ("content-type", "application/dns-message")
    case 45 => ("content-type", "application/javascript")
    case 46 => ("content-type", "application/json")
    case 47 => ("content-type", "application/x-www-form-urlencoded")
    case 48 => ("content-type", "image/gif")
    case 49 => ("content-type", "image/jpeg")
    case 50 => ("content-type", "image/png")
    case 51 => ("content-type", "text/css")
    case 52 => ("content-type", "text/html; charset=utf-8")
    case 53 => ("content-type", "text/plain")
    case _ => ("content-type", "text/plain;charset=utf-8")
  }

  function Rows55(index: nat): (e: (string, string))
    requires 55 <= index < 66
    ensures |e.0| <= 64 && |e.1| <= 64
  {
    match index
    case 55 => ("range", "bytes=0-")
    case 56 => ("strict-transport-security", "max-age=31536000")
    case 57 => ("strict-transport-security", "max-age=31536000; includesubdomains")
    case 58 => ("strict-transport-security", "max-age=31536000; includesubdomains; preload")
    case 59 => ("vary", "accept-encoding")
    case 60 => ("vary", "origin")
    case 61 => ("x-content-type-options", "nosniff")
    case 62 => ("x-xss-protection", "1; mode=block")
    case 63 => (":status", "100")
    case 64 => (":status", "204")
    case _ => (":status", "206")
  }

  function Rows66(index: nat): (e: (string, string))
    requires 66 <= index < 77
    ensures |e.0| <= 64 && |e.1| <= 64
  {
    match index
    case 66 => (":status", "302")
    case 67 => (":status", "400")
    case 68 => (":status", "403")
    case 69 => (":status", "421")
    case 70 => (":status", "425")
    case 71 => (":status", "500")
    case 72 => ("accept-language", "")
    case 73 => ("access-control-allow-credentials", "FALSE")
    case 74 => ("access-control-allow-credentials", "TRUE")
    case 75 => ("access-control-allow-headers", "*")
    case _ => ("access-control-allow-methods", "get")
  }

  function Rows77(index: nat): (e: (string, string))
    requires 77 <= index < 88
    ensures |e.0| <= 64 && |e.1| <= 64
  {
    match index
    case 77 => ("access-control-allow-methods", "get, post, options")
    case 78 => ("access-control-allow-methods", "options")
    case 79 => ("access-control-expose-headers", "content-length")
    case 80 => ("access-control-request-headers", "content-type")
    case 81 => ("access-control-request-method", "get")
    case 82 => ("access-control-request-method", "post")
    case 83 => ("alt-svc", "clear")
    case 84 => ("authorization", "")
    case 85 => ("content-security-policy", "script-src 'none'; object-src 'none'; base-uri 'none'")
    case 86 => ("early-data", "1")
    case _ => ("expect-ct", "")
  }

  function Rows88(index: nat): (e: (string, string))
    requires 88 <= index < 99
    ensures |e.0| <= 64 && |e.1| <= 64
  {
    match index
    case 88 => ("forwarded", "")
    case 89 => ("if-range", "")
    case 90 => ("origin", "")
    case 91 => ("purpose", "prefetch")
    case 92 => ("server", "")
    case 93 => ("timing-allow-origin", "*")
    case 94 => ("upgrade-insecure-requests", "1")
    case 95 => ("user-agent", "")
    case 96 => ("x-forwarded-for", "")
    case 97 => ("x-frame-options", "deny")
    case _ => ("x-frame-options", "sameorigin")
  }

  function Get(index: nat): Option<(Text, Text)> {
    if index < SIZE then Some(Entry(index)) else None
  }

  /** The first entry from `from` on with this name. */
  function FirstName(name: Text, from: nat): (r: Option<nat>)
    requires from <= SIZE
    decreases SIZE - from
  {
    if from == SIZE then None
    else if Entry(from).0 == name then Some(from)
    else FirstName(name, from + 1)
  }

  /** The first entry from `from` on with this name and this value. */
  function FirstExact(name: Text, value: Text, from: nat): (r: Option<nat>)
    requires from <= SIZE
    decreases SIZE - from
  {
    if from == SIZE then None
    else if Entry(from) == (name, value) then Some(from)
    else FirstExact(name, value, from + 1)
  }

  lemma {:induction false} FirstNameIsFirst(name: Text, from: nat)
    requires from <= SIZE
    ensures var r := FirstName(name, from);
            && (r.Some? ==> from <= r.value < SIZE && Entry(r.value).0 == name)
            && forall j :: from <= j < (if r.Some? then r.value else SIZE) ==> Entry(j).0 != name
    decreases SIZE - from
  {
    hide Entry;
    if from < SIZE && Entry(from).0 != name {
      FirstNameIsFirst(name, from + 1);
    }
  }

  lemma {:induction false} FirstExactIsFirst(name: Text, value: Text, from: nat)
    requires from <= SIZE
    ensures var r := FirstExact(name, value, from);
            && (r.Some? ==> from <= r.value < SIZE && Entry(r.value) == (name, value))
            && forall j :: from <= j < (if r.Some? then r.value else SIZE) ==> Entry(j) != (name, value)
    decreases SIZE - from
  {
    hide Entry;
    if from < SIZE && Entry(from) != (name, value) {
      FirstExactIsFirst(name, value, from + 1);
    }
  }

  lemma {:induction false} ExactIndex(name: Text, value: Text, from: nat, index: nat)
    requires from <= index < SIZE && Entry(index) == (name, value)
    requires forall j :: from <= j < index ==> Entry(j) != (name, value)
    ensures FirstExact(name, value, from) == Some(index)
    decreases index - from
  {
    hide Entry;
    if from < index {
      ExactIndex(name, value, from + 1, index);
    }
  }

  lemma {:induction false} NoExactIndex(name: Text, value: Text, from: nat)
    requires from <= SIZE && forall j :: from <= j < SIZE ==> Entry(j) != (name, value)
    ensures FirstExact(name, value, from).None?
    decreases SIZE - from
  {
    hide Entry;
    if from < SIZE {
      NoExactIndex(name, value, from + 1);
    }
  }

  lemma {:induction false} NameIndex(name: Text, from: nat, index: nat)
    requires from <= index < SIZE && Entry(index).0 == name
    requires forall j :: from <= j < index ==> Entry(j).0 != name
    ensures FirstName(name, from) == Some(index)
    decreases index - from
  {
    hide Entry;
    if from < index {
      NameIndex(name, from + 1, index);
    }
  }

  lemma {:induction false} NoNameIndex(name: Text, value: Text, from: nat)
    requires from <= SIZE && forall j :: from <= j < SIZE ==> Entry(j).0 != name
    ensures FirstName(name, from).None? && FirstExact(name, value, from).None?
    decreases SIZE - from
  {
    hide Entry;
    if from < SIZE {
      NoNameIndex(name, value, from + 1);
    }
  }

  datatype StaticMatch = StaticMatch(exact: Option<nat>, name: Option<nat>)

  /** One pass that remembers the first entry with the name and stops at an exact match. */
  method Lookup(name: Text, value: Text) returns (m: StaticMatch)
    ensures m == StaticMatch(FirstExact(name, value, 0), FirstName(name, 0))
  {
    hide Entry;
    var nameIndex: Option<nat> := None;
    var exact: Option<nat> := None;
    var index := 0;
    while index < SIZE
      invariant index <= SIZE && exact == None
      invariant FirstExact(name, value, 0) == FirstExact(name, value, index)
      invariant FirstName(name, 0) == if nameIndex.Some? then nameIndex else FirstName(name, index)
    {
      var (entryName, entryValue) := Entry(index);
      if entryName == name {
        if nameIndex.None? {
          nameIndex := Some(index);
        }
        if entryValue == value {
          exact := Some(index);
          break;
        }
      }
      index := index + 1;
    }
    m := StaticMatch(exact, nameIndex);
  }
}
