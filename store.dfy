/**
 * The records the worker keeps and the three key-value namespaces it keeps
 * them in (URL_MAPPINGS, ANALYTICS and USERS). JSON encoding is replaced by
 * datatypes stored directly in the maps; string keys are replaced by key
 * datatypes whose string spelling is proved injective below.
 */
module Store {

  datatype Option<T> = None | Some(value: T)

  /** What a JSON handler answers: a success body, an error response
      `jsonResponse({ error }, status)`, or an exception the handler does not catch. */
  datatype Reply<T> = Ok(value: T) | Err(status: nat, error: string) | Thrown(reason: string)

  /** The owner recorded on links created without a user id. */
  const Anonymous: string := "anonymous"

  // ---------------------------------------------------------------------------
  // Records

  /** A link's metadata record, stored under `urldata:{code}`. */
  datatype UrlData = UrlData(
    id: string,
    shortId: string,
    originalUrl: string,
    shortUrl: string,
    userId: string,
    clicks: nat,
    createdAt: string)

  /** One entry of a link's click history. */
  datatype Click = Click(
    timestamp: string,
    country: string,
    device: string,
    referrer: string,
    userAgent: string)

  /** A link's analytics record, stored in ANALYTICS under the bare code. */
  datatype AnalyticsData = AnalyticsData(
    created: string,
    clicks: nat,
    countries: map<string, nat>,
    devices: map<string, nat>,
    referrers: map<string, nat>,
    clickHistory: seq<Click>)

  /** An account, stored in USERS under its bare id. */
  datatype User = User(
    id: string,
    username: string,
    email: string,
    passwordHash: string,
    createdAt: string)

  /** An account as the handlers return it: the password hash left out. */
  datatype PublicUser = PublicUser(id: string, username: string, email: string, createdAt: string)

  function Public(u: User): (p: PublicUser)
    ensures p.id == u.id && p.username == u.username && p.email == u.email && p.createdAt == u.createdAt
  {
    PublicUser(u.id, u.username, u.email, u.createdAt)
  }

  // ---------------------------------------------------------------------------
  // URL_MAPPINGS: `url:{code}`, `urldata:{code}` and `user:{id}:urls`

  datatype UrlKey = UrlEntry(code: string) | DataEntry(code: string) | UserIndex(userId: string)

  datatype UrlValue = RawUrl(url: string) | LinkData(data: UrlData) | CodeList(codes: seq<string>)

  type UrlMappings = map<UrlKey, UrlValue>

  /** ANALYTICS, keyed by the bare short code. */
  type AnalyticsKv = map<string, AnalyticsData>

  /** The string under which the worker stores a URL_MAPPINGS entry. */
  function UrlKeyName(k: UrlKey): string
  {
    match k
    case UrlEntry(c) => "url:" + c
    case DataEntry(c) => "urldata:" + c
    case UserIndex(id) => "user:" + id + ":urls"
  }

  /** The three key families of URL_MAPPINGS never collide, whatever the code or id,
      so one structured key per family loses nothing. */
  lemma UrlKeyNameInjective(a: UrlKey, b: UrlKey)
    requires UrlKeyName(a) == UrlKeyName(b)
    ensures a == b
  {
    var s := UrlKeyName(a);
    UrlKeyFamilyMarks(a);
    UrlKeyFamilyMarks(b);
    // Within a family the payload is what is left once the fixed parts are cut off.
    match a {
      case UrlEntry(c) => assert c == s[4..] == b.code;
      case DataEntry(c) => assert c == s[8..] == b.code;
      case UserIndex(c) =>
        assert |c| == |b.userId|;
        assert c == s[5..5 + |c|] == b.userId;
    }
  }

  /** The second and fourth letters of a key's name tell its family. */
  lemma UrlKeyFamilyMarks(k: UrlKey)
    ensures |UrlKeyName(k)| >= 4
    ensures UrlKeyName(k)[1] == 's' <==> k.UserIndex?
    ensures UrlKeyName(k)[3] == ':' <==> k.UrlEntry?
  {
  }

  /** Each URL_MAPPINGS key family holds the kind of value the worker writes there. */
  predicate UrlValueFits(k: UrlKey, v: UrlValue)
  {
    match k
    case UrlEntry(_) => v.RawUrl? && v.url != ""
    case DataEntry(c) => v.LinkData? && v.data.shortId == c && v.data.userId != ""
    case UserIndex(_) => v.CodeList?
  }

  ghost predicate WellTyped(m: UrlMappings)
  {
    forall k :: k in m ==> UrlValueFits(k, m[k])
  }

  /** `URL_MAPPINGS.get("url:" + code)`, None when absent or falsy. */
  function GetUrl(m: UrlMappings, code: string): (r: Option<string>)
    ensures r.Some? ==> UrlEntry(code) in m && m[UrlEntry(code)] == RawUrl(r.value) && r.value != ""
    ensures WellTyped(m) ==> (r.Some? <==> UrlEntry(code) in m)
  {
    var k := UrlEntry(code);
    if k in m && m[k].RawUrl? && m[k].url != "" then Some(m[k].url) else None
  }

  /** The parsed `urldata:{code}` record, None when absent. */
  function GetData(m: UrlMappings, code: string): (r: Option<UrlData>)
    ensures r.Some? ==> DataEntry(code) in m && m[DataEntry(code)] == LinkData(r.value)
    ensures WellTyped(m) ==> (r.Some? <==> DataEntry(code) in m)
    ensures WellTyped(m) && r.Some? ==> r.value.shortId == code
  {
    var k := DataEntry(code);
    if k in m && m[k].LinkData? then Some(m[k].data) else None
  }

  /** The parsed `user:{id}:urls` list, None when absent. */
  function GetIndex(m: UrlMappings, userId: string): (r: Option<seq<string>>)
    ensures r.Some? ==> UserIndex(userId) in m && m[UserIndex(userId)] == CodeList(r.value)
    ensures WellTyped(m) ==> (r.Some? <==> UserIndex(userId) in m)
  {
    var k := UserIndex(userId);
    if k in m && m[k].CodeList? then Some(m[k].codes) else None
  }

  // ---------------------------------------------------------------------------
  // USERS: `{id}`, `email:{e}`, `username:{u}`, `verified:{id}`, `verify:{token}`, `reset:{token}`

  datatype UserKey =
    | AccountOf(id: string)
    | EmailOf(email: string)
    | UsernameOf(username: string)
    | VerifiedOf(userId: string)
    | VerifyToken(token: string)
    | ResetToken(token: string)

  datatype UserValue = Account(user: User) | Text(text: string)

  type Users = map<UserKey, UserValue>

  /** The string under which the worker stores a USERS entry. */
  function UserKeyName(k: UserKey): string
  {
    match k
    case AccountOf(id) => id
    case EmailOf(e) => "email:" + e
    case UsernameOf(u) => "username:" + u
    case VerifiedOf(id) => "verified:" + id
    case VerifyToken(t) => "verify:" + t
    case ResetToken(t) => "reset:" + t
  }

  /** Account records sit under the bare id, so they stay apart from the
      prefixed keys only while ids contain no ':' (as generated ids never do). */
  predicate ColonFreeId(k: UserKey)
  {
    k.AccountOf? ==> ':' !in k.id
  }

  lemma UserKeyNameInjective(a: UserKey, b: UserKey)
    requires ColonFreeId(a) && ColonFreeId(b)
    requires UserKeyName(a) == UserKeyName(b)
    ensures a == b
  {
    var s := UserKeyName(a);
    if a.AccountOf? && b.AccountOf? {
    } else if a.AccountOf? || b.AccountOf? {
      // The bare id has no ':', but every prefixed key does.
      assert false;
    } else {
      // The first letter tells the families apart, except verified:/verify:, which differ at index 5.
      assert s[0] == UserKeyName(b)[0];
      assert s[5] == UserKeyName(b)[5];
      match a
      case EmailOf(e) => assert e == s[6..] == b.email;
      case UsernameOf(u) => assert u == s[9..] == b.username;
      case VerifiedOf(id) => assert id == s[9..] == b.userId;
      case VerifyToken(t) => assert t == s[7..] == b.token;
      case ResetToken(t) => assert t == s[6..] == b.token;
    }
  }

  /** Accounts hold a record with their own id; every other USERS key holds a non-empty string. */
  predicate UserValueFits(k: UserKey, v: UserValue)
  {
    match k
    case AccountOf(id) => v.Account? && v.user.id == id
    case _ => v.Text? && v.text != ""
  }

  ghost predicate UsersWellTyped(users: Users)
  {
    forall k :: k in users ==> UserValueFits(k, users[k])
  }

  /** `USERS.get(key)` for a string-valued key, None when absent or falsy. */
  function GetText(users: Users, k: UserKey): (r: Option<string>)
    ensures r.Some? ==> k in users && users[k] == Text(r.value) && r.value != ""
    ensures UsersWellTyped(users) && !k.AccountOf? ==> (r.Some? <==> k in users)
  {
    if k in users && users[k].Text? && users[k].text != "" then Some(users[k].text) else None
  }

  /** The parsed account record stored under `id`, None when absent. */
  function GetAccount(users: Users, id: string): (r: Option<User>)
    ensures r.Some? ==> AccountOf(id) in users && users[AccountOf(id)] == Account(r.value)
    ensures UsersWellTyped(users) ==> (r.Some? <==> AccountOf(id) in users)
    ensures UsersWellTyped(users) && r.Some? ==> r.value.id == id
  {
    var k := AccountOf(id);
    if k in users && users[k].Account? then Some(users[k].user) else None
  }

  // ---------------------------------------------------------------------------
  // Identifier generation (nanoid)

  /** The 64 symbols of nanoid's URL-safe alphabet: A-Z, a-z, 0-9, '_' and '-'.
      (nanoid lists them in a scrambled order; a uniformly random byte makes the order immaterial.) */
  function UrlSymbol(i: nat): (c: char)
    requires i < 64
    ensures c != ':' && c != '/'
  {
    if i < 26 then ('A' as int + i) as char
    else if i < 52 then ('a' as int + (i - 26)) as char
    else if i < 62 then ('0' as int + (i - 52)) as char
    else if i == 62 then '_'
    else '-'
  }

  const ShortCodeLength: nat := 6
  const IdLength: nat := 16

  /** nanoid(size): each random byte picks a symbol by its low six bits. */
  function NanoId(random: seq<nat>): (id: string)
    ensures |id| == |random|
    ensures forall i :: 0 <= i < |id| ==> id[i] == UrlSymbol(random[i] % 64)
    ensures ':' !in id && '/' !in id
  {
    seq(|random|, i requires 0 <= i < |random| => UrlSymbol(random[i] % 64))
  }

  /** generateShortCode(): nanoid(6). The worker does not check the result for collisions. */
  function GenerateShortCode(random: seq<nat>): (code: string)
    requires |random| == ShortCodeLength
    ensures |code| == ShortCodeLength && code != ""
    ensures ':' !in code && '/' !in code
  {
    NanoId(random)
  }
}
