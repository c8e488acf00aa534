/** `applyPlaceholders` (lib/email/placeholders.ts): three passes over a
    template, replacing `{{client_name}}`, then `{{email}}`, then
    `{{date}}`. The current time that stands in for a missing date is a
    parameter, already formatted.

    The source calls ECMAScript's `replaceAll` with a string replacement,
    which expands `$&`, `` $` ``, `$'` and `$$` inside the inserted value.
    `ApplyPlaceholdersAsWritten` models that; `ApplyPlaceholders` inserts
    the values verbatim, as the template language evidently intends. They
    agree whenever no value holds a `$`. */
module Placeholders {
  import opened Common
  import opened Text

  const ClientNameToken := "{{client_name}}"
  const EmailToken := "{{email}}"
  const DateToken := "{{date}}"

  /** `PlaceholderVars`: each value may be missing. */
  datatype Vars = Vars(clientName: Option<string>, email: Option<string>, date: Option<string>)

  /** The three values inserted, in pass order; a missing date is the
      current time. */
  function Values(vars: Vars, now: string): (v: (string, string, string))
    ensures v.0 == vars.clientName.GetOr("") && v.1 == vars.email.GetOr("")
    ensures vars.date.Some? ==> v.2 == vars.date.value
    ensures vars.date.None? ==> v.2 == now
  {
    (vars.clientName.GetOr(""), vars.email.GetOr(""), vars.date.GetOr(now))
  }

  /** `applyPlaceholders(text, vars)` with verbatim insertion. */
  function ApplyPlaceholders(text: string, vars: Vars, now: string): string {
    var v := Values(vars, now);
    ReplaceAll(ReplaceAll(ReplaceAll(text, ClientNameToken, v.0), EmailToken, v.1), DateToken, v.2)
  }

  /** `applyPlaceholders(text, vars)` as written, with ECMAScript's `$`
      patterns expanded in each value. */
  function ApplyPlaceholdersAsWritten(text: string, vars: Vars, now: string): string {
    var v := Values(vars, now);
    ReplaceAllJs(ReplaceAllJs(ReplaceAllJs(text, ClientNameToken, v.0), EmailToken, v.1), DateToken, v.2)
  }

  /** Each pass splits the text at every occurrence of its token, as left
      by the passes before it, and joins the pieces with the value. */
  lemma ApplyIsThreeSplits(text: string, vars: Vars, now: string)
    ensures var v := Values(vars, now);
      var afterName := Join(SplitOn(text, ClientNameToken), v.0);
      var afterEmail := Join(SplitOn(afterName, EmailToken), v.1);
      ApplyPlaceholders(text, vars, now) == Join(SplitOn(afterEmail, DateToken), v.2)
  {
    var v := Values(vars, now);
    ReplaceAllIsSplitJoin(text, ClientNameToken, v.0);
    var afterName := ReplaceAll(text, ClientNameToken, v.0);
    ReplaceAllIsSplitJoin(afterName, EmailToken, v.1);
    var afterEmail := ReplaceAll(afterName, EmailToken, v.1);
    ReplaceAllIsSplitJoin(afterEmail, DateToken, v.2);
  }

  /** A text that holds none of the three tokens is returned unchanged. */
  lemma NoTokensUnchanged(text: string, vars: Vars, now: string)
    requires !Contains(text, ClientNameToken) && !Contains(text, EmailToken) && !Contains(text, DateToken)
    ensures ApplyPlaceholders(text, vars, now) == text
    ensures ApplyPlaceholdersAsWritten(text, vars, now) == text
  {
    var v := Values(vars, now);
    ReplaceAllAbsent(text, ClientNameToken, v.0);
    ReplaceAllAbsent(text, EmailToken, v.1);
    ReplaceAllAbsent(text, DateToken, v.2);
    JsAbsent(text, ClientNameToken, v.0);
    JsAbsent(text, EmailToken, v.1);
    JsAbsent(text, DateToken, v.2);
  }

  /** ECMAScript's `replaceAll` leaves a text without an occurrence as it
      is, whatever the replacement. */
  lemma {:induction false} JsAbsent(s: string, pat: string, rep: string)
    requires |pat| > 0 && !Contains(s, pat)
    ensures ReplaceAllJs(s, pat, rep) == s
  {
    JsAbsentFrom(s, pat, rep, 0);
  }

  lemma {:induction false} JsAbsentFrom(s: string, pat: string, rep: string, i: nat)
    requires |pat| > 0 && i <= |s| && !Contains(s, pat)
    ensures ReplaceAllJsFrom(s, pat, rep, i) == s[i..]
    decreases |s| - i
  {
    if |s| - i >= |pat| {
      assert !StartsAt(s, pat, i);
      JsAbsentFrom(s, pat, rep, i + 1);
      assert s[i..] == [s[i]] + s[i + 1..];
    }
  }

  /** The text the date pass of `applyPlaceholders` works on: the client
      name and the email filled in, as written. */
  function BeforeDatePass(text: string, name: string, email: string): string {
    ReplaceAllJs(ReplaceAllJs(text, ClientNameToken, name), EmailToken, email)
  }

  /** Only the last pass sees the date: a fill-in is the text before the
      date pass with that date put in, and when no `{{date}}` is left for
      that pass, every date gives the same result. */
  lemma DateOnlyInLastPass(text: string, name: string, email: string, d1: string, d2: string)
    ensures ApplyPlaceholdersAsWritten(text, Vars(Some(name), Some(email), Some(d1)), d1)
            == ReplaceAllJs(BeforeDatePass(text, name, email), DateToken, d1)
    ensures !Contains(BeforeDatePass(text, name, email), DateToken) ==>
      && ApplyPlaceholdersAsWritten(text, Vars(Some(name), Some(email), Some(d1)), d1) == BeforeDatePass(text, name, email)
      && ApplyPlaceholdersAsWritten(text, Vars(Some(name), Some(email), Some(d1)), d1)
         == ApplyPlaceholdersAsWritten(text, Vars(Some(name), Some(email), Some(d2)), d2)
  {
    var before := BeforeDatePass(text, name, email);
    if !Contains(before, DateToken) {
      JsAbsent(before, DateToken, d1);
      JsAbsent(before, DateToken, d2);
    }
  }

  /** When no value holds a `$`, the source's passes insert the values
      verbatim. */
  lemma AsWrittenAgrees(text: string, vars: Vars, now: string)
    requires var v := Values(vars, now); '$' !in v.0 && '$' !in v.1 && '$' !in v.2
    ensures ApplyPlaceholdersAsWritten(text, vars, now) == ApplyPlaceholders(text, vars, now)
  {
    var v := Values(vars, now);
    ReplaceAllJsVerbatim(text, ClientNameToken, v.0, 0);
    assert text[0..] == text;
    var a := ReplaceAll(text, ClientNameToken, v.0);
    ReplaceAllJsVerbatim(a, EmailToken, v.1, 0);
    assert a[0..] == a;
    var b := ReplaceAll(a, EmailToken, v.1);
    ReplaceAllJsVerbatim(b, DateToken, v.2, 0);
    assert b[0..] == b;
  }

  /** A client named `$&` is not inserted: the source puts the matched
      token back, while verbatim insertion puts the name in. */
  lemma DollarNameCounterexample()
    ensures var vars := Vars(Some("$&"), Some("a@b.c"), Some("2024-01-01"));
      && ApplyPlaceholdersAsWritten("{{client_name}}", vars, "") == "{{client_name}}"
      && ApplyPlaceholders("{{client_name}}", vars, "") == "$&"
  {
    var s := "{{client_name}}";
    assert StartsAt(s, ClientNameToken, 0);
    assert Substitute("$&", ClientNameToken, "", "") == ClientNameToken + Substitute("", ClientNameToken, "", "");
    assert ReplaceAllJsFrom(s, ClientNameToken, "$&", 15) == "";
    assert ReplaceAllJs(s, ClientNameToken, "$&") == s;
    NoEmailOrDate(s);
    JsAbsent(s, EmailToken, "a@b.c");
    JsAbsent(s, DateToken, "2024-01-01");
    assert s[..15] == ClientNameToken;
    assert ReplaceAll(s, ClientNameToken, "$&") == "$&" + ReplaceAll("", ClientNameToken, "$&");
    NoEmailOrDate("$&");
    ReplaceAllAbsent("$&", EmailToken, "a@b.c");
    ReplaceAllAbsent("$&", DateToken, "2024-01-01");
  }

  /** Texts too short to hold the second or third token. */
  lemma NoEmailOrDate(s: string)
    requires |s| < 8 || s == "{{client_name}}"
    ensures !Contains(s, EmailToken) && !Contains(s, DateToken)
  {
    if s == "{{client_name}}" {
      forall k: nat | k <= |s|
        ensures !StartsAt(s, EmailToken, k) && !StartsAt(s, DateToken, k)
      {
        if k + 8 <= |s| {
          assert s[k..k + 8][2] == s[k + 2];
          assert s[k..k + 8][0] == s[k];
          assert s[k..k + 8][1] == s[k + 1];
        }
      }
    }
  }

  /** A text that is exactly the pattern becomes the replacement. */
  lemma ReplaceWhole(pat: string, rep: string)
    requires |pat| > 0
    ensures ReplaceAll(pat, pat, rep) == rep
  {
    assert pat[..|pat|] == pat;
    assert ReplaceAll(pat, pat, rep) == rep + ReplaceAll(pat[|pat|..], pat, rep);
    assert pat[|pat|..] == [];
  }

  /** Passes run in order: the client name inserted by the first pass goes
      through the email and date passes, so every `{{email}}` or
      `{{date}}` inside a name is expanded as well. */
  lemma LaterPassExpandsEarlierValue(vars: Vars, now: string)
    ensures var v := Values(vars, now);
      ApplyPlaceholders(ClientNameToken, vars, now) == ReplaceAll(ReplaceAll(v.0, EmailToken, v.1), DateToken, v.2)
  {
    ReplaceWhole(ClientNameToken, Values(vars, now).0);
  }

  /** ... but the email inserted by the second pass never meets the
      client-name pass: only a `{{date}}` inside it is expanded, and an
      email without one is inserted whole, any `{{client_name}}` in it
      included. */
  lemma EarlierPassIgnoresLaterValue(vars: Vars, now: string)
    ensures var v := Values(vars, now);
      && ApplyPlaceholders(EmailToken, vars, now) == ReplaceAll(v.1, DateToken, v.2)
      && (!Contains(v.1, DateToken) ==> ApplyPlaceholders(EmailToken, vars, now) == v.1)
  {
    var v := Values(vars, now);
    assert ReplaceAll(EmailToken, ClientNameToken, v.0) == EmailToken;
    ReplaceWhole(EmailToken, v.1);
    if !Contains(v.1, DateToken) {
      ReplaceAllAbsent(v.1, DateToken, v.2);
    }
  }

  /** The first occurrence is replaced and the text before it copied. */
  lemma ReplaceAllFirstAt(s: string, pat: string, rep: string, k: nat)
    requires |pat| > 0 && StartsAt(s, pat, k)
    requires forall j: nat :: j < k ==> !StartsAt(s, pat, j)
    ensures ReplaceAll(s, pat, rep) == s[..k] + rep + ReplaceAll(s[k + |pat|..], pat, rep)
  {
    ReplaceAllSkip(s, pat, rep, k);
    var t := s[k..];
    assert t[..|pat|] == pat;
    assert t[|pat|..] == s[k + |pat|..];
    assert ReplaceAll(t, pat, rep) == rep + ReplaceAll(t[|pat|..], pat, rep);
  }

  /** The result may still hold a token: removing one occurrence with an
      empty value can join the text around it into a new one. */
  lemma EmptyValueReassemblesToken(text: string, now: string)
    requires text == "{{" + ClientNameToken + "client_name}}"
    ensures ApplyPlaceholders(text, Vars(Some(""), None, None), now) == ClientNameToken
  {
    ReassembleAt(text);
    NoEmailOrDate(ClientNameToken);
    ReplaceAllAbsent(ClientNameToken, EmailToken, "");
    ReplaceAllAbsent(ClientNameToken, DateToken, now);
  }

  lemma ReassembleAt(s: string)
    requires s == "{{" + ClientNameToken + "client_name}}"
    ensures ReplaceAll(s, ClientNameToken, "") == "{{client_name}}"
  {
    NoTokenInFirstTwo(s);
    RemoveOnly("{{", ClientNameToken, "client_name}}");
  }

  /** Removing the one occurrence of `pat` that follows `pre`, when no
      earlier one starts inside `pre` and `post` is too short to hold
      another. */
  lemma RemoveOnly(pre: string, pat: string, post: string)
    requires |pat| > 0 && |post| < |pat|
    requires forall j: nat :: j < |pre| ==> !StartsAt(pre + pat + post, pat, j)
    ensures ReplaceAll(pre + pat + post, pat, "") == pre + post
  {
    var s := pre + pat + post;
    assert s[|pre|..|pre| + |pat|] == pat;
    ReplaceAllFirstAt(s, pat, "", |pre|);
    assert s[..|pre|] == pre;
    assert s[|pre| + |pat|..] == post;
  }

  /** Neither of the first two positions starts the token: the third
      character is a brace, not a `c`. */
  lemma NoTokenInFirstTwo(s: string)
    requires s == "{{" + ClientNameToken + "client_name}}"
    ensures forall j: nat :: j < 2 ==> !StartsAt(s, ClientNameToken, j)
  {
    assert s[2] == '{' && s[3] == '{' && ClientNameToken[2] == 'c';
    assert s[0..15][2] == s[2];
    assert s[1..16][2] == s[3];
  }
}
