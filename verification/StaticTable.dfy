/** The QPACK static table (Appendix A of RFC 9204), as core/tincd/src/h3.c lists it. */
module StaticTable {
  import opened Bits

  const STATIC_N := 99

  /** A field: name and value, as bytes. */
  datatype Entry = Entry(name: seq<Byte>, value: seq<Byte>)

  function StaticName(i: nat): string
    requires i < STATIC_N
  {
    match i
    case 0 => ":authority"
    case 1 => ":path"
    case 2 => "age"
    case 3 => "content-disposition"
    case 4 => "content-length"
    case 5 => "cookie"
    case 6 => "date"
    case 7 => "etag"
    case 8 => "if-modified-since"
    case 9 => "if-none-match"
    case 10 => "last-modified"
    case 11 => "link"
    case 12 => "location"
    case 13 => "referer"
    case 14 => "set-cookie"
    case 15 => ":method"
    case 16 => ":method"
    case 17 => ":method"
    case 18 => ":method"
    case 19 => ":method"
    case 20 => ":method"
    case 21 => ":method"
    case 22 => ":scheme"
    case 23 => ":scheme"
    case 24 => ":status"
    case 25 => ":status"
    case 26 => ":status"
    case 27 => ":status"
    case 28 => ":status"
    case 29 => "accept"
    case 30 => "accept"
    case 31 => "accept-encoding"
    case 32 => "accept-ranges"
    case 33 => "access-control-allow-headers"
    case 34 => "access-control-allow-headers"
    case 35 => "access-control-allow-origin"
    case 36 => "cache-control"
    case 37 => "cache-control"
    case 38 => "cache-control"
    case 39 => "cache-control"
    case 40 => "cache-control"
    case 41 => "cache-control"
    case 42 => "content-encoding"
    case 43 => "content-encoding"
    case 44 => "content-type"
    case 45 => "content-type"
    case 46 => "content-type"
    case 47 => "content-type"
    case 48 => "content-type"
    case 49 => "content-type"
    case 50 => "content-type"
    case 51 => "content-type"
    case 52 => "content-type"
    case 53 => "content-type"
    case 54 => "content-type"
    case 55 => "range"
    case 56 => "strict-transport-security"
    case 57 => "strict-transport-security"
    case 58 => "strict-transport-security"
    case 59 => "vary"
    case 60 => "vary"
    case 61 => "x-content-type-options"
    case 62 => "x-xss-protection"
    case 63 => ":status"
    case 64 => ":status"
    case 65 => ":status"
    case 66 => ":status"
    case 67 => ":status"
    case 68 => ":status"
    case 69 => ":status"
    case 70 => ":status"
    case 71 => ":status"
    case 72 => "accept-language"
    case 73 => "access-control-allow-credentials"
    case 74 => "access-control-allow-credentials"
    case 75 => "access-control-allow-headers"
    case 76 => "access-control-allow-methods"
    case 77 => "access-control-allow-methods"
    case 78 => "access-control-allow-methods"
    case 79 => "access-control-expose-headers"
    case 80 => "access-control-request-headers"
    case 81 => "access-control-request-method"
    case 82 => "access-control-request-method"
    case 83 => "alt-svc"
    case 84 => "authorization"
    case 85 => "content-security-policy"
    case 86 => "early-data"
    case 87 => "expect-ct"
    case 88 => "forwarded"
    case 89 => "if-range"
    case 90 => "origin"
    case 91 => "purpose"
    case 92 => "server"
    case 93 => "timing-allow-origin"
    case 94 => "upgrade-insecure-requests"
    case 95 => "user-agent"
    case 96 => "x-forwarded-for"
    case 97 => "x-frame-options"
    case _ => "x-frame-options"
  }

  function StaticValue(i: nat): string
    requires i < STATIC_N
  {
    match i
    case 0 => ""
    case 1 => "/"
    case 2 => "0"
    case 3 => ""
    case 4 => "0"
    case 5 => ""
    case 6 => ""
    case 7 => ""
    case 8 => ""
    case 9 => ""
    case 10 => ""
    case 11 => ""
    case 12 => ""
    case 13 => ""
    case 14 => ""
    case 15 => "CONNECT"
    case 16 => "DELETE"
    case 17 => "GET"
    case 18 => "HEAD"
    case 19 => "OPTIONS"
    case 20 => "POST"
    case 21 => "PUT"
    case 22 => "http"
    case 23 => "https"
    case 24 => "103"
    case 25 => "200"
    case 26 => "304"
    case 27 => "404"
    case 28 => "503"
    case 29 => "*/*"
    case 30 => "application/dns-message"
    case 31 => "gzip, deflate, br"
    case 32 => "bytes"
    case 33 => "cache-control"
    case 34 => "content-type"
    case 35 => "*"
    case 36 => "max-age=0"
    case 37 => "max-age=2592000"
    case 38 => "max-age=604800"
    case 39 => "no-cache"
    case 40 => "no-store"
    case 41 => "public, max-age=31536000"
    case 42 => "br"
    case 43 => "gzip"
    case 44 => "application/dns-message"
    case 45 => "application/javascript"
    case 46 => "application/json"
    case 47 => "application/x-www-form-urlencoded"
    case 48 => "image/gif"
    case 49 => "image/jpeg"
    case 50 => "image/png"
    case 51 => "text/css"
    case 52 => "text/html;charset=utf-8"
    case 53 => "text/plain"
    case 54 => "text/plain;charset=utf-8"
    case 55 => "bytes=0-"
    case 56 => "max-age=31536000"
    case 57 => "max-age=31536000;includesubdomains"
    case 58 => "max-age=31536000;includesubdomains;preload"
    case 59 => "accept-encoding"
    case 60 => "origin"
    case 61 => "nosniff"
    case 62 => "1;mode=block"
    case 63 => "100"
    case 64 => "204"
    case 65 => "206"
    case 66 => "302"
    case 67 => "400"
    case 68 => "403"
    case 69 => "421"
    case 70 => "425"
    case 71 => "500"
    case 72 => ""
    case 73 => "FALSE"
    case 74 => "TRUE"
    case 75 => "*"
    case 76 => "get"
    case 77 => "get, post, options"
    case 78 => "options"
    case 79 => "content-length"
    case 80 => "content-type"
    case 81 => "get"
    case 82 => "post"
    case 83 => "clear"
    case 84 => ""
    case 85 => "script-src 'none';object-src 'none';base-uri 'none'"
    case 86 => "1"
    case 87 => ""
    case 88 => ""
    case 89 => ""
    case 90 => ""
    case 91 => "prefetch"
    case 92 => ""
    case 93 => "*"
    case 94 => "1"
    case 95 => ""
    case 96 => ""
    case 97 => "deny"
    case _ => "sameorigin"
  }

  function StaticEntry(i: nat): Entry
    requires i < STATIC_N
  {
    Entry(Text(StaticName(i)), Text(StaticValue(i)))
  }

  /** The entries whose names the decoder treats specially are these and no others. */
  lemma SpecialNamesAt(i: nat)
    requires i < STATIC_N
    ensures StaticName(i) == ":authority" <==> i == 0
    ensures StaticName(i) == ":path" <==> i == 1
    ensures StaticName(i) == ":method" <==> 15 <= i <= 21
    ensures StaticName(i) == "cookie" <==> i == 5
    ensures StaticName(i) != "host"
  {
  }

  lemma IgnoredNamesAt(i: nat)
    requires i < STATIC_N
    ensures StaticName(i) == ":scheme" <==> 22 <= i <= 23
    ensures StaticName(i) == ":status" <==> 24 <= i <= 28 || 63 <= i <= 71
  {
  }

  /** The values of those that stand for a whole field. */
  lemma SpecialValues()
    ensures StaticValue(0) == "" && StaticValue(1) == "/" && StaticValue(5) == ""
    ensures StaticValue(15) == "CONNECT" && StaticValue(16) == "DELETE" && StaticValue(17) == "GET"
    ensures StaticValue(18) == "HEAD" && StaticValue(19) == "OPTIONS" && StaticValue(20) == "POST"
    ensures StaticValue(21) == "PUT"
  {
  }

  /** The names the encoder writes by number are what it takes them for. */
  lemma EncoderNames()
    ensures StaticName(4) == "content-length" && StaticName(6) == "date" && StaticName(10) == "last-modified"
    ensures StaticName(12) == "location" && StaticName(53) == "content-type"
  {
  }

  lemma LaterEncoderNames()
    ensures StaticName(59) == "vary" && StaticName(92) == "server"
  {
  }

  /** So are the fields it writes whole. */
  lemma EncoderValues()
    ensures StaticValue(4) == "0" && StaticValue(23) == "https" && StaticValue(25) == "200"
    ensures StaticValue(29) == "*/*" && StaticValue(59) == "accept-encoding"
  {
  }
}
