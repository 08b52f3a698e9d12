/** The author and committer text of a commit: User and UserWithTime with
    their to_string and from_string (Object.hpp). */
module Users {
  import opened Wrappers
  import opened Bytes
  import opened Numerals

  /** int64_t and int16_t. */
  type Long = x: int | MinLong <= x <= MaxLong
  type Short = x: int | MinShort <= x <= MaxShort

  datatype User = User(username: Bytes, email: Bytes)

  /** Seconds since the epoch and the zone offset (e.g. +0200 as 200). */
  datatype UserWithTime = UserWithTime(user: User, time: Long, timezone: Short)

  const EmailOpen: Bytes := [SP, LT]
  const EmailClose: Bytes := [GT, SP]

  /** The default-constructed UserWithTime of a Commit. */
  const NoUser := UserWithTime(User([], []), 0, 0)

  /** to_string(User): `username <email>`. */
  function UserText(u: User): (r: Bytes)
    ensures |r| == |u.username| + |u.email| + 3
    ensures r[..|u.username|] == u.username && r[|u.username|] == SP && r[|u.username| + 1] == LT
    ensures r[|u.username| + 2..|r| - 1] == u.email && r[|r| - 1] == GT
  {
    u.username + EmailOpen + u.email + [GT]
  }

  /** from_string falls back to the whole text as the name when there is no
      " <", no '>', or the last '>' comes before the first " <". */
  predicate UserFallback(sv: Bytes) {
    Find(sv, EmailOpen).None? || LastIndexOf(sv, GT).None?
    || LastIndexOf(sv, GT).value < Find(sv, EmailOpen).value
  }

  /** User::from_string. */
  function ParseUser(sv: Bytes): User {
    var split := Find(sv, EmailOpen);
    var end := LastIndexOf(sv, GT);
    if split.None? || end.None? || end.value < split.value then User(sv, [])
    else
      var i, e := split.value, end.value;
      // end - split - 2 as size_t: a wrapped length reads to the end
      User(sv[..i], if i + 2 <= e then sv[i + 2..e] else sv[i + 2..])
  }

  /** What User::from_string yields: the whole text as the name in the
      fallback case; otherwise a name free of " <" such that the text starts
      with to_string of the result and has no '>' after it. */
  lemma ParseUserMeaning(sv: Bytes)
    ensures UserFallback(sv) ==> ParseUser(sv) == User(sv, [])
    ensures !UserFallback(sv) ==>
      var r := ParseUser(sv);
      !Contains(r.username, EmailOpen) && |UserText(r)| <= |sv|
      && sv[..|UserText(r)|] == UserText(r) && GT !in sv[|UserText(r)|..]
  {
    if !UserFallback(sv) {
      FindSpec(sv, EmailOpen);
      ParsedUser(sv, Find(sv, EmailOpen).value, LastIndexOf(sv, GT).value);
    }
  }

  lemma ParsedUser(sv: Bytes, i: nat, e: nat)
    requires OccursAt(sv, EmailOpen, i) && forall j: nat | j < i :: !OccursAt(sv, EmailOpen, j)
    requires i <= e < |sv| && sv[e] == GT && GT !in sv[e + 1..]
    ensures i + 2 <= e
    ensures var u := User(sv[..i], sv[i + 2..e]);
      !Contains(u.username, EmailOpen) && UserText(u) == sv[..e + 1] && GT !in sv[e + 1..]
  {
    PairIff(sv, EmailOpen, i);
    assert sv[i] == SP && sv[i + 1] == LT && sv[e] == GT;
    assert i + 2 <= e;
    var u := User(sv[..i], sv[i + 2..e]);
    Pieces(sv, i, e);
    assert EmailOpen == [sv[i], sv[i + 1]];
    assert UserText(u) == sv[..i] + EmailOpen + sv[i + 2..e] + [GT];
    NotBefore(sv, EmailOpen, i);
  }

  lemma Pieces(sv: Bytes, i: nat, e: nat)
    requires i + 2 <= e < |sv|
    ensures sv[..e + 1] == sv[..i] + [sv[i], sv[i + 1]] + sv[i + 2..e] + [sv[e]]
  {
  }

  /** Text before the first occurrence of a pattern does not contain it. */
  lemma NotBefore(s: Bytes, pat: Bytes, i: nat)
    requires pat != [] && i <= |s|
    requires forall j: nat | j < i :: !OccursAt(s, pat, j)
    ensures !Contains(s[..i], pat)
  {
    forall j: nat | j <= i
      ensures !OccursAt(s[..i], pat, j)
    {
      if j + |pat| <= i {
        OccursInSlice(s, pat, 0, i, j);
        assert s[0..i] == s[..i];
      }
    }
  }

  /** to_string(UserWithTime): the user, the time in decimal and the zone as
      printf "%+05d". */
  function UwtText(w: UserWithTime): Bytes {
    UserText(w.user) + [SP] + SignedDecimal(w.time) + [SP] + TimezoneText(w.timezone)
  }

  /** UserWithTime::from_string. The time is the text between "> " and the
      last space; when the last space is the one of "> " the C++ length
      `space - emailEnd - 2` wraps to npos and the time is the rest of the
      text. The zone is the text after the last space, narrowed to int16_t. */
  function ParseUwt(sv: Bytes): (r: Result<UserWithTime>)
    ensures Find(sv, EmailClose).None? || SP !in sv ==> r == Err(InvalidUser)
    ensures r.Err? ==> r.error in {InvalidUser, InvalidNumber, NumberOutOfRange}
  {
    var emailEnd := Find(sv, EmailClose);
    var space := LastIndexOf(sv, SP);
    if emailEnd.None? || space.None? then Err(InvalidUser)
    else
      UwtFields(sv, emailEnd.value, space.value)
  }

  /** The fields of UserWithTime::from_string once "> " is found at `e` and
      the last space at `s`. */
  function UwtFields(sv: Bytes, e: nat, s: nat): (r: Result<UserWithTime>)
    requires e + 2 <= |sv| && s < |sv|
    ensures r.Err? ==> r.error in {InvalidNumber, NumberOutOfRange}
  {
    var user := ParseUser(sv[..e + 1]);
    var timeText := if s < e + 2 then sv[e + 2..] else sv[e + 2..s];
    var time :- StoL(timeText, 10);
    var zone :- StoL(sv[s + 1..], 10);
    Ok(UserWithTime(user, time, ToI16(zone)))
  }

  /** What the round trips below ask of the strings. */
  predicate WellFormedUser(u: User) {
    !Contains(u.username, EmailOpen) && !Contains(u.username, EmailClose)
    && !Contains(u.email, EmailClose) && (u.username == [] || u.username[|u.username| - 1] != GT)
  }

  lemma FindAt(s: Bytes, pat: Bytes, k: nat)
    requires OccursAt(s, pat, k)
    requires forall j: nat | j < k :: !OccursAt(s, pat, j)
    ensures Find(s, pat) == Some(k)
  {
    FindSpec(s, pat);
  }

  /** Occurrences inside a slice of `s` are occurrences in `s`. */
  lemma OccursInSlice(s: Bytes, pat: Bytes, lo: nat, hi: nat, j: nat)
    requires lo <= j && j + |pat| <= hi <= |s|
    ensures OccursAt(s, pat, j) <==> OccursAt(s[lo..hi], pat, j - lo)
  {
    var a, b := s[lo..hi][j - lo..j - lo + |pat|], s[j..j + |pat|];
    assert |a| == |b|;
    forall k | 0 <= k < |a|
      ensures a[k] == b[k]
    {
      assert a[k] == s[lo..hi][j - lo + k] == s[j + k];
    }
    assert a == b;
  }

  /** A two-byte pattern occurs where its two bytes do. */
  lemma PairIff(s: Bytes, pat: Bytes, j: nat)
    requires |pat| == 2
    ensures OccursAt(s, pat, j) <==> j + 2 <= |s| && s[j] == pat[0] && s[j + 1] == pat[1]
  {
    if j + 2 <= |s| {
      assert s[j..j + 2][0] == s[j] && s[j..j + 2][1] == s[j + 1];
      if s[j] == pat[0] && s[j + 1] == pat[1] {
        assert s[j..j + 2] == pat;
      }
    }
  }

  /** from_string(to_string(u)) == u when the name holds no " <". */
  lemma {:induction false} UserRoundTrip(u: User)
    requires !Contains(u.username, EmailOpen)
    ensures ParseUser(UserText(u)) == u
  {
    var t := UserText(u);
    var n := |u.username|;
    PairIff(t, EmailOpen, n);
    assert t[..n] == u.username;
    forall j: nat | j < n
      ensures !OccursAt(t, EmailOpen, j)
    {
      if j + 2 <= n {
        OccursInSlice(t, EmailOpen, 0, n, j);
      } else {
        PairIff(t, EmailOpen, j);
      }
    }
    FindAt(t, EmailOpen, n);
    assert LastIndexOf(t, GT) == Some(|t| - 1);
  }

  /** The last space of `s + [SP] + t` when `t` holds none. */
  lemma {:induction false} LastSpace(s: Bytes, t: Bytes)
    requires SP !in t
    ensures LastIndexOf(s + [SP] + t, SP) == Some(|s|)
    decreases |t|
  {
    var x := s + [SP] + t;
    if t != [] {
      var t' := t[..|t| - 1];
      assert x[..|x| - 1] == s + [SP] + t';
      LastSpace(s, t');
    }
  }

  /** The time and zone texts hold only signs and digits. */
  lemma NumbersAvoid(time: Long, tz: Short, c: byte)
    requires !IsDigit(c, 10) && c != PLUS && c != MINUS
    ensures c !in SignedDecimal(time) && c !in TimezoneText(tz)
  {
    var d: int := if time < 0 then -(time as int) else time;
    var ds := Digits(d, 10);
    DigitsAreDigits(d, 10);
    var x := SignedDecimal(time);
    forall k | 0 <= k < |x|
      ensures x[k] != c
    {
      if time < 0 && k > 0 {
        assert x[k] == ds[k - 1];
      }
    }
    var z := TimezoneText(tz);
    TimezoneTextShape(tz);
    assert AllDigits(z[1..], 10);
    forall k | 0 <= k < |z|
      ensures z[k] != c
    {
      if k > 0 {
        assert z[k] == z[1..][k - 1];
      }
    }
  }

  /** The first "> " of to_string(w) is the one after the email, whatever
      follows the user. */
  lemma {:induction false} EmailCloseAt(u: User, dt: Bytes, zt: Bytes)
    requires WellFormedUser(u)
    ensures Find(UserText(u) + [SP] + dt + [SP] + zt, EmailClose) == Some(|UserText(u)| - 1)
  {
    var t := UserText(u) + [SP] + dt + [SP] + zt;
    var n, m := |u.username|, |u.email|;
    var k := n + 2 + m;
    assert t[..|UserText(u)|] == UserText(u);
    assert t[k] == GT && t[k + 1] == SP;
    PairIff(t, EmailClose, k);
    assert t[..n] == u.username && t[n + 2..k] == u.email;
    forall j: nat | j < k
      ensures !OccursAt(t, EmailClose, j)
    {
      if j + 2 <= n {
        OccursInSlice(t, EmailClose, 0, n, j);
      } else if n + 2 <= j && j + 2 <= k {
        OccursInSlice(t, EmailClose, n + 2, k, j);
      } else {
        PairIff(t, EmailClose, j);
        assert j + 1 == n ==> t[j] == u.username[n - 1];
      }
    }
    FindAt(t, EmailClose, k);
  }

  /** ParseUwt once the two searches are known and both numbers parse. */
  lemma ParseUwtAt(sv: Bytes, e: nat, s: nat, dt: Bytes, zt: Bytes, time: Long, zone: int)
    requires Find(sv, EmailClose) == Some(e) && LastIndexOf(sv, SP) == Some(s) && e + 1 < s
    requires sv[e + 2..s] == dt && sv[s + 1..] == zt
    requires StoL(dt, 10) == Ok(time) && StoL(zt, 10) == Ok(zone)
    ensures ParseUwt(sv) == Ok(UserWithTime(ParseUser(sv[..e + 1]), time, ToI16(zone)))
  {
    ParseUwtSplits(sv, e, s);
    UwtFieldsOk(sv, e, s, dt, zt, time, zone);
  }

  lemma ParseUwtSplits(sv: Bytes, e: nat, s: nat)
    requires Find(sv, EmailClose) == Some(e) && LastIndexOf(sv, SP) == Some(s) && e + 1 < s
    ensures ParseUwt(sv) == UwtFields(sv, e, s)
  {
  }

  lemma UwtFieldsOk(sv: Bytes, e: nat, s: nat, dt: Bytes, zt: Bytes, time: Long, zone: int)
    requires e + 1 < s < |sv| && sv[e + 2..s] == dt && sv[s + 1..] == zt
    requires StoL(dt, 10) == Ok(time) && StoL(zt, 10) == Ok(zone)
    ensures UwtFields(sv, e, s) == Ok(UserWithTime(ParseUser(sv[..e + 1]), time, ToI16(zone)))
  {
    var r := UwtFields(sv, e, s);
    assert r.Ok? && r.value.time == time && r.value.user == ParseUser(sv[..e + 1])
      && r.value.timezone == ToI16(zone);
  }

  /** How a text made of user, time and zone separated by spaces is cut:
      the user ends at `e`, the last space is at `s`. */
  lemma UwtCuts(t: Bytes, ut: Bytes, dt: Bytes, zt: Bytes, e: nat, s: nat)
    requires t == ut + [SP] + dt + [SP] + zt && SP !in zt
    requires e + 1 == |ut| && s == |ut| + 1 + |dt|
    ensures LastIndexOf(t, SP) == Some(s)
    ensures t[..e + 1] == ut && t[e + 2..s] == dt && t[s + 1..] == zt
  {
    LastSpace(ut + [SP] + dt, zt);
  }

  /** ParseUwt of a text whose pieces are known and parse to the fields of `w`. */
  lemma ParseUwtOf(t: Bytes, ut: Bytes, e: nat, s: nat, dt: Bytes, zt: Bytes, w: UserWithTime)
    requires Find(t, EmailClose) == Some(e) && LastIndexOf(t, SP) == Some(s) && e + 1 < s
    requires t[..e + 1] == ut && t[e + 2..s] == dt && t[s + 1..] == zt
    requires StoL(dt, 10) == Ok(w.time) && StoL(zt, 10) == Ok(w.timezone as int)
    requires ParseUser(ut) == w.user
    ensures ParseUwt(t) == Ok(w)
  {
    ParseUwtAt(t, e, s, dt, zt, w.time, w.timezone);
  }

  /** ParseUwt of user, time and zone texts glued with spaces. */
  lemma ParseUwtGlued(ut: Bytes, dt: Bytes, zt: Bytes, w: UserWithTime)
    requires |ut| >= 1 && SP !in zt
    requires Find(ut + [SP] + dt + [SP] + zt, EmailClose) == Some(|ut| - 1)
    requires StoL(dt, 10) == Ok(w.time) && StoL(zt, 10) == Ok(w.timezone as int)
    requires ParseUser(ut) == w.user
    ensures ParseUwt(ut + [SP] + dt + [SP] + zt) == Ok(w)
  {
    var t := ut + [SP] + dt + [SP] + zt;
    var e: nat, s: nat := |ut| - 1, |ut| + 1 + |dt|;
    UwtCuts(t, ut, dt, zt, e, s);
    ParseUwtOf(t, ut, e, s, dt, zt, w);
  }

  /** from_string(to_string(w)) == w when the user strings are well formed. */
  lemma UwtRoundTrip(w: UserWithTime)
    requires WellFormedUser(w.user)
    ensures ParseUwt(UwtText(w)) == Ok(w)
  {
    var ut := UserText(w.user);
    var dt := SignedDecimal(w.time);
    var zt := TimezoneText(w.timezone);
    assert UwtText(w) == ut + [SP] + dt + [SP] + zt;
    EmailCloseAt(w.user, dt, zt);
    NumbersAvoid(w.time, w.timezone, SP);
    StoLSignedDecimal(w.time);
    StoLTimezone(w.timezone);
    UserRoundTrip(w.user);
    ParseUwtGlued(ut, dt, zt, w);
  }
}
