/** The Wi-Fi payload text handed to the QR encoder, and the split of an
    image id "ssid/password" into its two parts. */
module Payload {

  /** The Python exceptions a request can raise: IndexError and ValueError
      from building the payload, DataOverflowError from the QR encoder when
      the payload does not fit the largest QR version. */
  datatype Error = IndexError | ValueError | DataOverflowError

  datatype Result<T> = Ok(value: T) | Err(error: Error)

  /** QR_DATA_FORMAT_STR of qr-metadata.py. */
  const QrDataFormat: string := "WIFI:T:WPA;S:{};P:{};;"

  /** The payload for an SSID and a password, characters taken verbatim:
      nothing in either is escaped. */
  function WifiPayload(ssid: string, pw: string): (r: string)
    ensures |r| == 18 + |ssid| + |pw|
    ensures r[..13] == "WIFI:T:WPA;S:" && r[13..13 + |ssid|] == ssid
    ensures r[13 + |ssid|..16 + |ssid|] == ";P:" && r[16 + |ssid|..16 + |ssid| + |pw|] == pw
    ensures r[16 + |ssid| + |pw|..] == ";;"
  {
    "WIFI:T:WPA;S:" + ssid + ";P:" + pw + ";;"
  }

  // ---------------------------------------------------------------------
  // str.format with automatically numbered fields

  function Prepend(t: string, r: Result<string>): (r2: Result<string>) {
    match r
    case Ok(s) => Ok(t + s)
    case Err(e) => Err(e)
  }

  /** template.format(*args) for templates whose replacement fields are all
      "{}": each "{}" takes the next argument, "{{" and "}}" stand for one
      brace, a "{}" with no argument left raises IndexError, any other brace
      raises ValueError, and arguments left over are ignored. */
  function Format(template: string, args: seq<string>): (r: Result<string>)
    decreases |template|
  {
    if |template| == 0 then Ok("")
    else if template[0] == '{' then
      if |template| >= 2 && template[1] == '{' then Prepend("{", Format(template[2..], args))
      else if |template| >= 2 && template[1] == '}' then
        if |args| == 0 then Err(IndexError) else Prepend(args[0], Format(template[2..], args[1..]))
      else Err(ValueError)
    else if template[0] == '}' then
      if |template| >= 2 && template[1] == '}' then Prepend("}", Format(template[2..], args))
      else Err(ValueError)
    else Prepend([template[0]], Format(template[1..], args))
  }

  /** Text with no brace in it. */
  predicate NoBraces(t: string) {
    forall i :: 0 <= i < |t| ==> t[i] != '{' && t[i] != '}'
  }

  /** Literal text without braces is copied through unchanged. */
  lemma {:induction false} FormatLiteral(t: string, rest: string, args: seq<string>)
    requires NoBraces(t)
    ensures Format(t + rest, args) == Prepend(t, Format(rest, args))
  {
    if t != [] {
      var u := t + rest;
      assert u[0] == t[0] && u[1..] == t[1..] + rest;
      FormatLiteral(t[1..], rest, args);
      assert Format(u, args) == Prepend([t[0]], Format(t[1..] + rest, args));
      match Format(rest, args)
      case Ok(s) => assert [t[0]] + (t[1..] + s) == t + s;
      case Err(_) =>
    } else {
      assert t + rest == rest;
      match Format(rest, args)
      case Ok(s) => assert t + s == s;
      case Err(_) =>
    }
  }

  /** A "{}" field takes the next argument, or fails when there is none. */
  lemma FormatField(rest: string, args: seq<string>)
    ensures Format("{}" + rest, args) ==
      if |args| == 0 then Err(IndexError) else Prepend(args[0], Format(rest, args[1..]))
  {
    assert ("{}" + rest)[2..] == rest;
  }

  /** One "{}" field followed by brace-free text. */
  lemma FormatLastField(l: string, args: seq<string>)
    requires NoBraces(l)
    ensures Format("{}" + l, args) == if |args| >= 1 then Ok(args[0] + l) else Err(IndexError)
  {
    FormatField(l, args);
    if |args| >= 1 {
      FormatLiteral(l, [], args[1..]);
      assert l + [] == l;
    }
  }

  /** Brace-free text, a field, brace-free text, a field, brace-free text. */
  lemma FormatTwoFields(l1: string, l2: string, l3: string, args: seq<string>)
    requires NoBraces(l1) && NoBraces(l2) && NoBraces(l3)
    ensures Format(l1 + ("{}" + (l2 + ("{}" + l3))), args) ==
      if |args| >= 2 then Ok(l1 + (args[0] + (l2 + (args[1] + l3)))) else Err(IndexError)
  {
    FormatLiteral(l1, "{}" + (l2 + ("{}" + l3)), args);
    FormatField(l2 + ("{}" + l3), args);
    if |args| >= 1 {
      FormatLiteral(l2, "{}" + l3, args[1..]);
      FormatLastField(l3, args[1..]);
    }
  }

  /** QR_DATA_FORMAT_STR split around its two fields. */
  lemma QrDataFormatShape()
    ensures QrDataFormat == "WIFI:T:WPA;S:" + ("{}" + (";P:" + ("{}" + ";;")))
    ensures NoBraces("WIFI:T:WPA;S:") && NoBraces(";P:") && NoBraces(";;")
  {
  }

  /** QR_DATA_FORMAT_STR.format(*parts): the Wi-Fi payload of the first two
      parts, and IndexError when there are fewer than two. */
  lemma FormatPayload(parts: seq<string>)
    ensures Format(QrDataFormat, parts) ==
      if |parts| >= 2 then Ok(WifiPayload(parts[0], parts[1])) else Err(IndexError)
  {
    QrDataFormatShape();
    FormatTwoFields("WIFI:T:WPA;S:", ";P:", ";;", parts);
    if |parts| >= 2 {
      WifiPayloadShape(parts[0], parts[1]);
    }
  }

  lemma WifiPayloadShape(ssid: string, pw: string)
    ensures WifiPayload(ssid, pw) == "WIFI:T:WPA;S:" + (ssid + (";P:" + (pw + ";;")))
  {
  }

  // ---------------------------------------------------------------------
  // The f-string of qr-stats.py

  /** f"WIFI:T:WPA;S:{ssid_pw[0]};P:{ssid_pw[1]};;": each index must exist. */
  function FStringPayload(parts: seq<string>): (r: Result<string>)
    ensures r.Ok? <==> |parts| >= 2
  {
    if |parts| < 2 then Err(IndexError) else Ok(WifiPayload(parts[0], parts[1]))
  }

  /** Both ways of building the payload give the same text, and fail alike. */
  lemma PayloadStylesAgree(parts: seq<string>)
    ensures Format(QrDataFormat, parts) == FStringPayload(parts)
  {
    FormatPayload(parts);
  }

  /** Because nothing is escaped, a ";P:" moved across the SSID/password
      boundary gives the same payload for different credentials. */
  lemma PayloadAmbiguous(a: string, b: string, c: string)
    ensures WifiPayload(a + ";P:" + b, c) == WifiPayload(a, b + ";P:" + c)
  {
  }

  // ---------------------------------------------------------------------
  // id.split("/", maxsplit=1)

  /** s.split(sep, maxsplit=1): the text before the first sep and the text
      after it, or s alone when sep does not occur. */
  function SplitOnce(s: string, sep: char): (parts: seq<string>)
    ensures 1 <= |parts| <= 2
    ensures |parts| == 2 <==> sep in s
    ensures |parts| == 1 ==> parts[0] == s
    ensures |parts| == 2 ==> sep !in parts[0] && parts[0] + [sep] + parts[1] == s
  {
    if |s| == 0 then [s]
    else if s[0] == sep then
      assert s == [] + [sep] + s[1..];
      ["", s[1..]]
    else
      var rest := SplitOnce(s[1..], sep);
      assert s == [s[0]] + s[1..];
      if |rest| == 1 then [s]
      else
        assert [s[0]] + rest[0] + [sep] + rest[1] == [s[0]] + (rest[0] + [sep] + rest[1]);
        [[s[0]] + rest[0], rest[1]]
  }

  /** The decomposition at the first separator is the only one whose first
      part avoids the separator. */
  lemma {:induction false} SplitOnceUnique(a: string, b: string, sep: char)
    requires sep !in a
    ensures SplitOnce(a + [sep] + b, sep) == [a, b]
  {
    var s := a + [sep] + b;
    if a == [] {
      assert s == [sep] + b;
      assert s[1..] == b;
    } else {
      assert s[0] == a[0];
      assert s[1..] == a[1..] + [sep] + b;
      SplitOnceUnique(a[1..], b, sep);
      assert [a[0]] + a[1..] == a;
    }
  }
}
