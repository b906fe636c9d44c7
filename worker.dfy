/**
 * The worker's request handlers as methods of an object holding the three
 * KV namespaces. Each handler reads and writes the store one call at a time,
 * in the order the worker does, and is proved to leave the store exactly as
 * the corresponding function of Links or Accounts says.
 */
module Worker {
  import opened Store
  import opened Analytics
  import Links
  import Accounts

  class Worker {
    /** URL_MAPPINGS */
    var urlMappings: UrlMappings
    /** ANALYTICS */
    var analytics: AnalyticsKv
    /** USERS */
    var users: Users
    /** bcrypt's hash, fixed per worker; `compare(p, h)` is `hash(p) == h`. */
    const hash: string -> string
    /** The hostname of `new URL(s)`, None where the constructor throws. */
    const hostOf: string -> Option<string>
    /** The serialised form of `new URL(s)` that `Response.redirect` puts in
        Location, None where `s` does not parse and the call throws. */
    const hrefOf: string -> Option<string>

    /** Every key of every namespace holds the kind of value the worker writes there. */
    ghost predicate Valid()
      reads this
    {
      WellTyped(urlMappings) && UsersWellTyped(users)
    }

    /** A worker bound to three empty namespaces. */
    constructor(hash: string -> string, hostOf: string -> Option<string>, hrefOf: string -> Option<string>)
      ensures Valid()
      ensures urlMappings == map[] && analytics == map[] && users == map[]
      ensures this.hash == hash && this.hostOf == hostOf && this.hrefOf == hrefOf
    {
      urlMappings := map[];
      analytics := map[];
      users := map[];
      this.hash := hash;
      this.hostOf := hostOf;
      this.hrefOf := hrefOf;
    }

    // -------------------------------------------------------------------------
    // Links

    /** handleShortenUrl */
    method Shorten(
      url: string, customCode: string, userId: string,
      codeBytes: seq<nat>, idBytes: seq<nat>, origin: string, now: string) returns (reply: Reply<Links.ShortLink>)
      requires |codeBytes| == ShortCodeLength && |idBytes| == IdLength
      modifies this
      ensures Links.Step(reply, urlMappings, analytics)
        == Links.Shorten(old(urlMappings), old(analytics), url, customCode, userId, codeBytes, idBytes, origin, now)
      ensures users == old(users)
      ensures old(Valid()) ==> Valid()
    {
      if url == "" {
        return Err(400, "URL is required");
      }
      var shortId := if customCode != "" then customCode else GenerateShortCode(codeBytes);
      if customCode != "" {
        var existing := GetUrl(urlMappings, customCode);
        if existing.Some? {
          return Err(400, "Custom code already in use");
        }
      }
      var urlId := NanoId(idBytes);
      urlMappings := urlMappings[UrlEntry(shortId) := RawUrl(url)];
      var shortUrl := origin + "/" + shortId;
      var urlData := UrlData(urlId, shortId, url, shortUrl, Links.Owner(userId), 0, now);
      urlMappings := urlMappings[DataEntry(shortId) := LinkData(urlData)];
      if userId != "" {
        var userUrls := Links.IndexOrEmpty(urlMappings, userId);
        userUrls := [shortId] + userUrls;
        urlMappings := urlMappings[UserIndex(userId) := CodeList(userUrls)];
      }
      analytics := analytics[shortId := Zero(now)];
      reply := Ok(Links.ShortLink(shortUrl, shortId));
    }

    /** handleGetUserLinks: one metadata and one analytics lookup per indexed code. */
    method GetUserLinks(userId: string) returns (reply: Reply<seq<UrlData>>)
      ensures reply == Links.ListLinks(urlMappings, analytics, userId)
    {
      if userId == "" {
        return Err(400, "User ID is required");
      }
      var userUrls := GetIndex(urlMappings, userId);
      if userUrls.None? {
        return Ok([]);
      }
      var shortIds := userUrls.value;
      var links: seq<UrlData> := [];
      for i := 0 to |shortIds|
        invariant links == Links.Collect(urlMappings, analytics, shortIds[..i])
      {
        var shortId := shortIds[i];
        assert shortIds[..i + 1][..i] == shortIds[..i];
        var found := GetData(urlMappings, shortId);
        if found.Some? {
          var urlData := found.value;
          if shortId in analytics {
            urlData := urlData.(clicks := analytics[shortId].clicks);
          }
          links := links + [urlData];
        }
      }
      assert shortIds[..|shortIds|] == shortIds;
      reply := Ok(links);
    }

    /** handleDeleteLink */
    method DeleteLink(linkId: string, requester: string) returns (reply: Reply<string>)
      modifies this
      ensures Links.Step(reply, urlMappings, analytics) == Links.Delete(old(urlMappings), old(analytics), linkId, requester)
      ensures users == old(users)
      ensures old(Valid()) ==> Valid()
    {
      var found := GetData(urlMappings, linkId);
      if found.None? {
        return Err(404, "Link not found");
      }
      var urlData := found.value;
      if requester != "" && urlData.userId != requester {
        return Err(403, "Unauthorized");
      }
      urlMappings := urlMappings - {UrlEntry(linkId)};
      urlMappings := urlMappings - {DataEntry(linkId)};
      analytics := analytics - {linkId};
      if requester != "" {
        var userUrls := GetIndex(urlMappings, requester);
        if userUrls.Some? {
          var kept := Links.Without(userUrls.value, linkId);
          urlMappings := urlMappings[UserIndex(requester) := CodeList(kept)];
        }
      }
      reply := Ok("Link deleted successfully");
    }

    /** handleRedirect */
    method Redirect(shortId: string, req: ClickRequest, now: string, fault: Links.Fault) returns (reply: Links.RedirectReply)
      modifies this
      ensures Links.Step(reply, urlMappings, analytics)
        == Links.Redirect(old(urlMappings), old(analytics), shortId, req, now, hostOf, hrefOf, fault)
      ensures users == old(users)
      ensures old(Valid()) ==> Valid()
    {
      var originalUrl := GetUrl(urlMappings, shortId);
      if originalUrl.None? {
        return Links.NotFound;
      }
      UpdateAnalytics(shortId, req, now, fault);
      var location := hrefOf(originalUrl.value);
      if location.None? {
        return Links.RedirectThrows;
      }
      reply := Links.Found(location.value);
    }

    /** updateAnalytics: the record is read (or started from zero), updated field
        by field, written back, and its total copied onto the link's metadata.
        A failing store call ends the update; its error is swallowed. */
    method UpdateAnalytics(shortId: string, req: ClickRequest, now: string, fault: Links.Fault)
      modifies this
      ensures Links.Step((), urlMappings, analytics)
        == Links.RecordVisit(old(urlMappings), old(analytics), shortId, req, now, hostOf, fault)
      ensures users == old(users)
    {
      var a := if shortId in analytics then analytics[shortId] else Zero(now);
      ghost var prior := a;
      a := a.(clicks := a.clicks + 1);
      var country := CountryLabel(req.country);
      a := a.(countries := Bump(a.countries, country));
      var userAgent := req.userAgent;
      var device := DeviceLabel(userAgent);
      a := a.(devices := Bump(a.devices, device));
      var referrerDomain := ReferrerLabel(req.referer, hostOf);
      a := a.(referrers := Bump(a.referrers, referrerDomain));
      var click := Click(now, country, device, referrerDomain, Truncate(userAgent, UserAgentLimit));
      assert click == ClickEntry(req, now, hostOf);
      var history := a.clickHistory + [click];
      if |history| > HistoryLimit {
        history := history[|history| - HistoryLimit..];
      }
      assert history == KeepLast(prior.clickHistory + [click], HistoryLimit);
      a := a.(clickHistory := history);
      assert a == Recorded(prior, click);
      if fault == Links.FailsBeforeAnalyticsWrite {
        return;
      }
      analytics := analytics[shortId := a];
      if fault == Links.FailsBeforeMirrorWrite {
        return;
      }
      var found := GetData(urlMappings, shortId);
      if found.Some? {
        urlMappings := urlMappings[DataEntry(shortId) := LinkData(found.value.(clicks := a.clicks))];
      }
    }

    /** handleGetAnalytics */
    method GetAnalytics(shortId: string) returns (reply: Reply<AnalyticsData>)
      ensures reply == Links.GetAnalytics(analytics, shortId)
    {
      if shortId !in analytics {
        return Err(404, "URL not found");
      }
      reply := Ok(analytics[shortId]);
    }

    /** handleResetAnalytics */
    method ResetAnalytics(shortId: string, now: string) returns (reply: Reply<string>)
      modifies this
      ensures Links.Step(reply, urlMappings, analytics) == Links.ResetAnalytics(old(urlMappings), old(analytics), shortId, now)
      ensures users == old(users)
      ensures old(Valid()) ==> Valid()
    {
      analytics := analytics[shortId := Zero(now)];
      var found := GetData(urlMappings, shortId);
      if found.Some? {
        urlMappings := urlMappings[DataEntry(shortId) := LinkData(found.value.(clicks := 0))];
      }
      reply := Ok("Analytics reset successfully");
    }

    // -------------------------------------------------------------------------
    // Accounts

    /** handleRegister (the verification email is not modelled) */
    method Register(
      username: string, email: string, password: string,
      idBytes: seq<nat>, token: string, now: string) returns (reply: Reply<PublicUser>)
      requires |idBytes| == IdLength
      modifies this
      ensures Accounts.UStep(reply, users)
        == Accounts.Register(old(users), username, email, password, hash, idBytes, token, now)
      ensures urlMappings == old(urlMappings) && analytics == old(analytics)
      ensures old(Valid()) ==> Valid()
    {
      if username == "" || email == "" || password == "" {
        return Err(400, "Username, email, and password are required");
      }
      var existingUserByEmail := GetText(users, EmailOf(email));
      if existingUserByEmail.Some? {
        return Err(409, "Email already registered");
      }
      var existingUserByUsername := GetText(users, UsernameOf(username));
      if existingUserByUsername.Some? {
        return Err(409, "Username already taken");
      }
      var userId := NanoId(idBytes);
      var passwordHash := hash(password);
      var user := User(userId, username, email, passwordHash, now);
      users := users[AccountOf(userId) := Account(user)];
      users := users[EmailOf(email) := Text(userId)];
      users := users[UsernameOf(username) := Text(userId)];
      users := users[VerifiedOf(userId) := Text("false")];
      users := users[VerifyToken(token) := Text(userId)];
      reply := Ok(Public(user));
    }

    /** handleVerifyEmail */
    method VerifyEmail(token: string) returns (reply: Reply<string>)
      modifies this
      ensures Accounts.UStep(reply, users) == Accounts.VerifyEmail(old(users), token)
      ensures urlMappings == old(urlMappings) && analytics == old(analytics)
      ensures old(Valid()) ==> Valid()
    {
      var userId := GetText(users, VerifyToken(token));
      if userId.None? {
        return Thrown("Invalid or expired verification token");
      }
      users := users - {VerifyToken(token)};
      users := users[VerifiedOf(userId.value) := Text("true")];
      reply := Ok("Email verified successfully");
    }

    /** handleLogin */
    method Login(email: string, password: string) returns (reply: Reply<PublicUser>)
      ensures reply == Accounts.Login(users, email, password, hash)
    {
      if email == "" || password == "" {
        return Err(400, "Email and password are required");
      }
      var userId := GetText(users, EmailOf(email));
      if userId.None? {
        return Err(401, "Invalid email or password");
      }
      var user := GetAccount(users, userId.value);
      if user.None? {
        return Err(404, "User not found");
      }
      var isPasswordValid := hash(password) == user.value.passwordHash;
      if !isPasswordValid {
        return Err(401, "Invalid email or password");
      }
      var isVerified := GetText(users, VerifiedOf(userId.value));
      if isVerified != Some("true") {
        return Err(403, "User not verified");
      }
      reply := Ok(Public(user.value));
    }

    /** handleChangeUsername */
    method ChangeUsername(userId: string, newUsername: string) returns (reply: Reply<PublicUser>)
      modifies this
      ensures Accounts.UStep(reply, users) == Accounts.ChangeUsername(old(users), userId, newUsername)
      ensures urlMappings == old(urlMappings) && analytics == old(analytics)
      ensures old(Valid()) ==> Valid()
    {
      if userId == "" || newUsername == "" {
        return Err(400, "User ID and new username are required");
      }
      var existingUser := GetText(users, UsernameOf(newUsername));
      if existingUser.Some? {
        return Err(409, "Username already taken");
      }
      var found := GetAccount(users, userId);
      if found.None? {
        return Err(404, "User not found");
      }
      var oldUsername := found.value.username;
      var user := found.value.(username := newUsername);
      users := users[AccountOf(userId) := Account(user)];
      users := users[UsernameOf(newUsername) := Text(userId)];
      users := users - {UsernameOf(oldUsername)};
      reply := Ok(Public(user));
    }

    /** handleChangePassword */
    method ChangePassword(userId: string, oldPassword: string, newPassword: string) returns (reply: Reply<PublicUser>)
      modifies this
      ensures Accounts.UStep(reply, users) == Accounts.ChangePassword(old(users), userId, oldPassword, newPassword, hash)
      ensures urlMappings == old(urlMappings) && analytics == old(analytics)
      ensures old(Valid()) ==> Valid()
    {
      if userId == "" || oldPassword == "" || newPassword == "" {
        return Err(400, "User ID, old password, and new password are required");
      }
      var found := GetAccount(users, userId);
      if found.None? {
        return Err(404, "User not found");
      }
      var isOldPasswordValid := hash(oldPassword) == found.value.passwordHash;
      if !isOldPasswordValid {
        return Err(401, "Invalid old password");
      }
      var user := found.value.(passwordHash := hash(newPassword));
      users := users[AccountOf(userId) := Account(user)];
      reply := Ok(Public(user));
    }

    /** handleChangeEmail */
    method ChangeEmail(userId: string, newEmail: string) returns (reply: Reply<PublicUser>)
      modifies this
      ensures Accounts.UStep(reply, users) == Accounts.ChangeEmail(old(users), userId, newEmail)
      ensures urlMappings == old(urlMappings) && analytics == old(analytics)
      ensures old(Valid()) ==> Valid()
    {
      if userId == "" || newEmail == "" {
        return Err(400, "User ID and new email are required");
      }
      var existingUser := GetText(users, EmailOf(newEmail));
      if existingUser.Some? {
        return Err(409, "Email already registered");
      }
      var found := GetAccount(users, userId);
      if found.None? {
        return Err(404, "User not found");
      }
      var oldEmail := found.value.email;
      var user := found.value.(email := newEmail);
      users := users[AccountOf(userId) := Account(user)];
      users := users[EmailOf(newEmail) := Text(userId)];
      users := users - {EmailOf(oldEmail)};
      reply := Ok(Public(user));
    }

    /** handleRequestPasswordReset (the reset email is not modelled) */
    method RequestPasswordReset(email: string, token: string) returns (reply: Reply<string>)
      modifies this
      ensures Accounts.UStep(reply, users) == Accounts.RequestPasswordReset(old(users), email, token)
      ensures urlMappings == old(urlMappings) && analytics == old(analytics)
      ensures old(Valid()) ==> Valid()
    {
      if email == "" {
        return Err(400, "Email is required");
      }
      var userId := GetText(users, EmailOf(email));
      if userId.None? {
        return Err(404, "Email not registered");
      }
      users := users[ResetToken(token) := Text(email)];
      reply := Ok(userId.value);
    }

    /** handleResetPassword */
    method ResetPassword(token: string, newPassword: Option<string>) returns (reply: Reply<string>)
      modifies this
      ensures Accounts.UStep(reply, users) == Accounts.ResetPassword(old(users), token, newPassword, hash)
      ensures urlMappings == old(urlMappings) && analytics == old(analytics)
      ensures old(Valid()) ==> Valid()
    {
      var email := GetText(users, ResetToken(token));
      if email.None? {
        return Err(400, "Invalid or expired token");
      }
      var userId := GetText(users, EmailOf(email.value));
      if userId.None? {
        return Err(404, "User not found");
      }
      var userData := GetAccount(users, userId.value);
      if newPassword.None? {
        return Thrown(Accounts.IllegalArguments);
      }
      var passwordHash := hash(newPassword.value);
      if userData.None? {
        return Thrown("Cannot set properties of null");
      }
      var user := userData.value.(passwordHash := passwordHash);
      users := users[AccountOf(userId.value) := Account(user)];
      users := users - {ResetToken(token)};
      reply := Ok("Password reset successful.");
    }
  }
}
