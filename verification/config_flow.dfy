/**
 * `validate_input` of the configuration flow: it completes the user's cookie with
 * fixed session cookies and two cookies carrying the phone number, stores the
 * result under "full_cookie" in the submitted dictionary, and returns the title of
 * the configuration entry.
 */
module ConfigFlow {
  import opened Wrappers

  /** The title of every configuration entry. */
  const Title := "燃气费查询"

  /** The fixed session cookies sent after the user's own. */
  const AppUidCookie := "pt%5FAppUid=no%5Flogin"
  const SafedogCookie := "safedog-flow-item=E40DAE29FEA3F7315737490DA56A1126"

  /** The names of the two cookies that carry the phone number. */
  const NicknameName := "pt%5Fnickname="
  const UserNameName := "pt%5Fuser%5Fname="

  /** The f-string of `validate_input`, its literal text cut at the "; "
      separators: the user's cookie, the two fixed session cookies and the two
      phone-number cookies, in that order, joined as a `Cookie` header joins them. */
  function FullCookie(cookie: string, phone: string): (r: string)
    ensures r == JoinCookies(CookieParts(cookie, phone))
  {
    var sep := "; ";
    JoinFive(cookie, AppUidCookie, SafedogCookie, NicknameName + phone, UserNameName + phone);
    cookie + sep + AppUidCookie + sep + SafedogCookie + sep + NicknameName + phone + sep + UserNameName + phone
  }

  /** Cookies as a `Cookie` header carries them: separated by "; ". */
  function JoinCookies(parts: seq<string>): (r: string)
    ensures parts != [] ==> |r| >= |parts[0]| && r[..|parts[0]|] == parts[0]
  {
    if parts == [] then ""
    else if |parts| == 1 then parts[0]
    else parts[0] + "; " + JoinCookies(parts[1..])
  }

  /** The cookies `full_cookie` is made of, in order. */
  function CookieParts(cookie: string, phone: string): seq<string> {
    [cookie, AppUidCookie, SafedogCookie, NicknameName + phone, UserNameName + phone]
  }

  lemma JoinFive(a: string, b: string, c: string, d: string, e: string)
    ensures JoinCookies([a, b, c, d, e]) == a + "; " + (b + "; " + (c + "; " + (d + "; " + e)))
  {
    assert [a, b, c, d, e][1..] == [b, c, d, e];
    assert [b, c, d, e][1..] == [c, d, e];
    assert [c, d, e][1..] == [d, e];
    assert [d, e][1..] == [e];
    assert JoinCookies([e]) == e;
    assert JoinCookies([d, e]) == d + "; " + e;
    assert JoinCookies([c, d, e]) == c + "; " + (d + "; " + e);
    assert JoinCookies([b, c, d, e]) == b + "; " + (c + "; " + (d + "; " + e));
  }

  /** `full_cookie` starts with the user's cookie verbatim, ends with the phone
      number, and is 111 characters longer than the cookie and twice the phone. */
  lemma FullCookieShape(cookie: string, phone: string)
    ensures |FullCookie(cookie, phone)| == |cookie| + 2 * |phone| + 111
    ensures FullCookie(cookie, phone)[..|cookie|] == cookie
    ensures FullCookie(cookie, phone)[|FullCookie(cookie, phone)| - |phone|..] == phone
  {
    assert |AppUidCookie| == 22 && |SafedogCookie| == 50 && |NicknameName| == 14 && |UserNameName| == 17;
    var head := cookie + "; " + AppUidCookie + "; " + SafedogCookie + "; " + NicknameName + phone + "; " + UserNameName;
    assert FullCookie(cookie, phone) == head + phone;
    forall i | 0 <= i < |cookie| ensures FullCookie(cookie, phone)[i] == cookie[i] {
    }
  }

  /** Recovers the user's cookie and the phone number from a `full_cookie`, given
      how long the user's cookie was; `None` if `full` is no such cookie. */
  function SplitFullCookie(full: string, n: nat): (r: Option<(string, string)>)
    ensures r.Some? ==> FullCookie(r.value.0, r.value.1) == full && |r.value.0| == n
  {
    if n + 111 > |full| || (|full| - n - 111) % 2 != 0 then None
    else
      var k := (|full| - n - 111) / 2;
      var cookie, phone := full[..n], full[|full| - k..];
      if FullCookie(cookie, phone) == full then Some((cookie, phone)) else None
  }

  /** Given the length of the user's cookie, the cookie and the phone number can
      be read back from `full_cookie`. */
  lemma SplitFullCookieInverse(cookie: string, phone: string)
    ensures SplitFullCookie(FullCookie(cookie, phone), |cookie|) == Some((cookie, phone))
  {
    FullCookieShape(cookie, phone);
  }

  /** The text between the user's cookie and the first copy of the phone number,
      and between the two copies. */
  const PhoneLead := "; " + AppUidCookie + "; " + SafedogCookie + "; " + NicknameName
  const PhoneTrail := "; " + UserNameName

  /** `full_cookie` alone does not determine the cookie and the phone number, so
      `SplitFullCookie` needs the cookie's length: a phone number made of the text
      around its own copies gives the same string as an empty phone number with
      that text moved into the cookie. */
  lemma FullCookieNeedsLength(cookie: string)
    ensures (cookie, PhoneLead + PhoneTrail) != (cookie + PhoneLead + PhoneLead + PhoneTrail + PhoneTrail, "")
    ensures FullCookie(cookie, PhoneLead + PhoneTrail) == FullCookie(cookie + PhoneLead + PhoneLead + PhoneTrail + PhoneTrail, "")
  {
    var l, t := PhoneLead, PhoneTrail;
    assert |t| == 19;
    FullCookieAround(cookie, l + t);
    FullCookieAround(cookie + l + l + t + t, "");
    Regroup(cookie, l, t);
  }

  /** Moving a phone number made of `l + t` into the cookie, around its copies. */
  lemma Regroup(c: string, l: string, t: string)
    ensures c + l + (l + t) + t + (l + t) == (c + l + l + t + t) + l + "" + t + ""
  {
  }

  /** `full_cookie` is the cookie, `PhoneLead`, the phone number, `PhoneTrail` and
      the phone number again. */
  lemma FullCookieAround(cookie: string, phone: string)
    ensures FullCookie(cookie, phone) == cookie + PhoneLead + phone + PhoneTrail + phone
  {
    Gather(cookie, "; ", AppUidCookie, SafedogCookie, NicknameName, phone, UserNameName);
  }

  /** Regrouping the f-string around the two copies of the phone number. */
  lemma Gather(c: string, sep: string, a: string, b: string, n: string, p: string, u: string)
    ensures c + sep + a + sep + b + sep + n + p + sep + u + p == c + (sep + a + sep + b + sep + n) + p + (sep + u) + p
  {
  }

  /** The submitted dictionary as `validate_input` leaves it, and the dictionary it
      returns (which holds only the title). */
  datatype Validated = Validated(data: map<string, string>, title: string)

  /** `validate_input`. Reading `data["phone"]` and then `data["cookie"]` raises
      `KeyError` for the first one missing, which `Failure` carries. */
  function ValidateInput(data: map<string, string>): (r: Result<Validated, string>)
    ensures r.Failure? <==> "phone" !in data || "cookie" !in data
    ensures r.Failure? ==> r.error == if "phone" !in data then "phone" else "cookie"
    ensures r.Success? ==> r.value.title == Title && r.value.data.Keys == data.Keys + {"full_cookie"}
    ensures r.Success? ==> r.value.data["full_cookie"] == FullCookie(data["cookie"], data["phone"])
    ensures r.Success? ==> forall k | k in data && k != "full_cookie" :: r.value.data[k] == data[k]
  {
    if "phone" !in data then Failure("phone")
    else if "cookie" !in data then Failure("cookie")
    else Success(Validated(data["full_cookie" := FullCookie(data["cookie"], data["phone"])], Title))
  }

  /** The stored cookie depends on the submitted cookie and phone number only: the
      account number and any other entry have no say in it. */
  lemma ValidateInputDependsOnCookieAndPhone(data: map<string, string>, data': map<string, string>)
    requires "phone" in data && "cookie" in data && "phone" in data' && "cookie" in data'
    requires data["phone"] == data'["phone"] && data["cookie"] == data'["cookie"]
    ensures ValidateInput(data).Success? && ValidateInput(data').Success?
    ensures ValidateInput(data).value.data["full_cookie"] == ValidateInput(data').value.data["full_cookie"]
  {
  }
}
