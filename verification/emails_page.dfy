/** The logic of the send page (app/dashboard/emails/page.tsx): which
    clients are selected, whether sending is allowed, the per-recipient
    items it posts, the preview, and the list of failures it shows. The
    rendering, the queries and the clock are left out; the ISO date that
    stands in for `{{date}}` is given per recipient. */
module EmailsPage {
  import opened Common
  import opened Types
  import opened Text
  import opened Placeholders
  import opened Gmail
  import opened SendRoute

  /** The checkbox state, `Record<string, boolean>`. */
  type Selection = map<string, bool>

  /** `selected[id]` is truthy: present and true. */
  predicate IsSelected(sel: Selection, id: string) {
    id in sel && sel[id]
  }

  /** An entry of `selectedEmails`: `{email, name}` of a client. */
  datatype Chosen = Chosen(email: string, name: string)

  function ChosenOf(c: Client): Chosen {
    Chosen(c.email, c.name)
  }

  /** A saved template, as the page reads it. */
  datatype Template = Template(id: string, name: string, subject: string, body: string)

  /** `clients.every(client => selected[client.id])` */
  function Every(clients: seq<Client>, sel: Selection): (r: bool)
    ensures r <==> forall i :: 0 <= i < |clients| ==> IsSelected(sel, clients[i].id)
  {
    if |clients| == 0 then true
    else
      var rest := Every(clients[1..], sel);
      assert rest <==> forall i :: 1 <= i < |clients| ==> IsSelected(sel, clients[i].id) by {
        forall i | 1 <= i < |clients| ensures clients[1..][i - 1] == clients[i] { }
      }
      IsSelected(sel, clients[0].id) && rest
  }

  /** `allSelected`: a non-empty list whose every client is selected. */
  function AllSelected(clients: seq<Client>, sel: Selection): (r: bool)
    ensures r <==> |clients| > 0 && forall i :: 0 <= i < |clients| ==> IsSelected(sel, clients[i].id)
  {
    |clients| > 0 && Every(clients, sel)
  }

  /** `selectedEmails`: the selected clients' addresses and names, in the
      order of the client list. */
  function SelectedEmails(clients: seq<Client>, sel: Selection): (r: seq<Chosen>)
    ensures |r| <= |clients|
    ensures forall x :: x in r ==> exists i :: 0 <= i < |clients| && IsSelected(sel, clients[i].id) && x == ChosenOf(clients[i])
    ensures forall i :: 0 <= i < |clients| && IsSelected(sel, clients[i].id) ==> ChosenOf(clients[i]) in r
  {
    if |clients| == 0 then []
    else
      var rest := SelectedEmails(clients[1..], sel);
      assert forall i :: 1 <= i < |clients| ==> clients[1..][i - 1] == clients[i];
      (if IsSelected(sel, clients[0].id) then [ChosenOf(clients[0])] else []) + rest
  }

  /** Selecting from two lists one after the other keeps both orders. */
  lemma {:induction false} SelectedAppend(a: seq<Client>, b: seq<Client>, sel: Selection)
    ensures SelectedEmails(a + b, sel) == SelectedEmails(a, sel) + SelectedEmails(b, sel)
  {
    if |a| == 0 {
      assert a + b == b;
    } else {
      assert (a + b)[0] == a[0];
      assert (a + b)[1..] == a[1..] + b;
      SelectedAppend(a[1..], b, sel);
    }
  }

  /** With every client selected, every client is a recipient, in order. */
  lemma {:induction false} SelectedWhenEvery(clients: seq<Client>, sel: Selection)
    requires forall i :: 0 <= i < |clients| ==> IsSelected(sel, clients[i].id)
    ensures SelectedEmails(clients, sel) == seq(|clients|, i requires 0 <= i < |clients| => ChosenOf(clients[i]))
  {
    if |clients| > 0 {
      SelectedWhenEvery(clients[1..], sel);
    }
  }

  /** With no client selected, there is no recipient. */
  lemma {:induction false} SelectedWhenNone(clients: seq<Client>, sel: Selection)
    requires forall i :: 0 <= i < |clients| ==> !IsSelected(sel, clients[i].id)
    ensures SelectedEmails(clients, sel) == []
  {
    if |clients| > 0 {
      SelectedWhenNone(clients[1..], sel);
    }
  }

  /** The ids of the listed clients. */
  function Ids(clients: seq<Client>): set<string> {
    set i | 0 <= i < |clients| :: clients[i].id
  }

  /** `toggleAll`: clear the selection when all are selected, otherwise
      select every listed client and nothing else. */
  function ToggleAll(clients: seq<Client>, sel: Selection): (r: Selection)
    ensures AllSelected(clients, sel) ==> r == map[]
    ensures !AllSelected(clients, sel) ==> r.Keys == Ids(clients) && forall id :: id in r ==> r[id]
  {
    if AllSelected(clients, sel) then map[]
    else map id | id in Ids(clients) :: true
  }

  /** After "Unselect all" nobody is a recipient; after "Select all"
      everybody is, and a non-empty list is then all selected. */
  lemma ToggleAllEffect(clients: seq<Client>, sel: Selection)
    ensures AllSelected(clients, sel) ==> SelectedEmails(clients, ToggleAll(clients, sel)) == []
    ensures !AllSelected(clients, sel) ==>
      && SelectedEmails(clients, ToggleAll(clients, sel)) == seq(|clients|, i requires 0 <= i < |clients| => ChosenOf(clients[i]))
      && (AllSelected(clients, ToggleAll(clients, sel)) <==> |clients| > 0)
  {
    var r := ToggleAll(clients, sel);
    if AllSelected(clients, sel) {
      SelectedWhenNone(clients, r);
    } else {
      assert forall i :: 0 <= i < |clients| ==> clients[i].id in Ids(clients);
      SelectedWhenEvery(clients, r);
    }
  }

  /** On a non-empty list, "Select all" then "Unselect all" clears the
      selection, whatever it was before. */
  lemma ToggleAllTwice(clients: seq<Client>, sel: Selection)
    requires |clients| > 0 && !AllSelected(clients, sel)
    ensures ToggleAll(clients, ToggleAll(clients, sel)) == map[]
  {
    ToggleAllEffect(clients, sel);
  }

  /** The checkbox of one client: `{...select, [id]: checked}`. */
  function Check(sel: Selection, id: string, checked: bool): (r: Selection)
    ensures IsSelected(r, id) == checked
    ensures forall other :: other != id ==> IsSelected(r, other) == IsSelected(sel, other)
    ensures r.Keys == sel.Keys + {id}
  {
    sel[id := checked]
  }

  /** Client ids are unique in the list. */
  predicate DistinctIds(clients: seq<Client>) {
    forall a, b :: 0 <= a < b < |clients| ==> clients[a].id != clients[b].id
  }

  /** A flag for an id no listed client has does not change the
      recipients. */
  lemma {:induction false} CheckElsewhere(clients: seq<Client>, sel: Selection, id: string, checked: bool)
    requires id !in Ids(clients)
    ensures SelectedEmails(clients, Check(sel, id, checked)) == SelectedEmails(clients, sel)
  {
    if |clients| > 0 {
      assert clients[0].id in Ids(clients);
      assert Ids(clients[1..]) <= Ids(clients) by {
        forall x | x in Ids(clients[1..]) ensures x in Ids(clients) {
          var i :| 0 <= i < |clients[1..]| && clients[1..][i].id == x;
          assert clients[i + 1].id == x;
        }
      }
      CheckElsewhere(clients[1..], sel, id, checked);
    }
  }

  /** Ticking an unselected client adds exactly one recipient. */
  lemma {:induction false} CheckAddsOne(clients: seq<Client>, sel: Selection, j: nat)
    requires DistinctIds(clients) && j < |clients| && !IsSelected(sel, clients[j].id)
    ensures |SelectedEmails(clients, Check(sel, clients[j].id, true))| == |SelectedEmails(clients, sel)| + 1
  {
    var id := clients[j].id;
    var sel' := Check(sel, id, true);
    if j == 0 {
      assert id !in Ids(clients[1..]) by {
        forall i | 0 <= i < |clients[1..]| ensures clients[1..][i].id != id {
          assert clients[1..][i] == clients[i + 1];
        }
      }
      CheckElsewhere(clients[1..], sel, id, true);
    } else {
      assert clients[0].id != id;
      assert clients[1..][j - 1] == clients[j];
      CheckAddsOne(clients[1..], sel, j - 1);
    }
  }

  /** ECMAScript's white space and line terminators, which `trim` removes. */
  predicate IsJsSpace(c: char) {
    var n := c as int;
    || n == 0x09 || n == 0x0A || n == 0x0B || n == 0x0C || n == 0x0D || n == 0x20
    || n == 0xA0 || n == 0x1680 || (0x2000 <= n <= 0x200A) || n == 0x2028 || n == 0x2029
    || n == 0x202F || n == 0x205F || n == 0x3000 || n == 0xFEFF
  }

  /** The text without its leading white space. */
  function TrimStart(s: string): (r: string)
    ensures |r| <= |s| && r == s[|s| - |r|..]
    ensures forall i :: 0 <= i < |s| - |r| ==> IsJsSpace(s[i])
    ensures |r| > 0 ==> !IsJsSpace(r[0])
  {
    if |s| > 0 && IsJsSpace(s[0]) then TrimStart(s[1..]) else s
  }

  /** The text without its trailing white space. */
  function TrimEnd(s: string): (r: string)
    ensures |r| <= |s| && r == s[..|r|]
    ensures forall i :: |r| <= i < |s| ==> IsJsSpace(s[i])
    ensures |r| > 0 ==> !IsJsSpace(r[|r| - 1])
  {
    if |s| > 0 && IsJsSpace(s[|s| - 1]) then TrimEnd(s[..|s| - 1]) else s
  }

  /** `s.trim()`: empty exactly when the text is all white space, and
      otherwise starting and ending with other characters. */
  function Trim(s: string): (r: string)
    ensures |r| <= |s|
    ensures |r| == 0 <==> forall i :: 0 <= i < |s| ==> IsJsSpace(s[i])
    ensures |r| > 0 ==> !IsJsSpace(r[0]) && !IsJsSpace(r[|r| - 1])
  {
    var t := TrimStart(s);
    TrimStartAt(s, t);
    TrimEnd(t)
  }

  /** What the leading trim leaves is the rest of the text. */
  lemma {:induction false} TrimStartAt(s: string, t: string)
    requires t == TrimStart(s)
    ensures forall i :: |s| - |t| <= i < |s| ==> t[i - (|s| - |t|)] == s[i]
  {
    var a := |s| - |t|;
    assert t == s[a..];
    forall i | a <= i < |s| ensures t[i - a] == s[i] {
      assert s[a..][i - a] == s[i];
    }
  }

  /** `canSend`: a recipient, and a subject and a body that are not all
      white space. */
  function CanSend(chosen: seq<Chosen>, subject: string, body: string): (r: bool)
    ensures r <==>
      && |chosen| > 0
      && (exists i :: 0 <= i < |subject| && !IsJsSpace(subject[i]))
      && (exists i :: 0 <= i < |body| && !IsJsSpace(body[i]))
  {
    |chosen| > 0 && |Trim(subject)| > 0 && |Trim(body)| > 0
  }

  /** With a recipient, "Test Subject" and "Test body" may be sent, but
      not with an empty body. */
  lemma CanSendScenario(chosen: seq<Chosen>)
    requires |chosen| > 0
    ensures !CanSend(chosen, "Test Subject", "")
    ensures CanSend(chosen, "Test Subject", "Test body")
    ensures !CanSend([], "Test Subject", "Test body")
  {
    assert !IsJsSpace("Test Subject"[0]);
    assert !IsJsSpace("Test body"[0]);
  }

  /** `templates.find(t => t.id === id)`: the first template with that id. */
  function FindTemplate(templates: seq<Template>, id: string): (r: Option<Template>)
    ensures r.None? <==> forall i :: 0 <= i < |templates| ==> templates[i].id != id
    ensures r.Some? ==> exists i :: 0 <= i < |templates| && templates[i] == r.value
                          && r.value.id == id && forall j :: 0 <= j < i ==> templates[j].id != id
  {
    if |templates| == 0 then None
    else if templates[0].id == id then Some(templates[0])
    else
      var r := FindTemplate(templates[1..], id);
      assert forall i :: 1 <= i < |templates| ==> templates[1..][i - 1] == templates[i];
      if r.Some? then
        var i :| 0 <= i < |templates[1..]| && templates[1..][i] == r.value && r.value.id == id
                 && forall j :: 0 <= j < i ==> templates[1..][j].id != id;
        assert templates[i + 1] == r.value;
        assert forall j :: 1 <= j < i + 1 ==> templates[j].id != id by {
          forall j | 1 <= j < i + 1 ensures templates[j].id != id {
            assert templates[1..][j - 1] == templates[j];
          }
        }
        r
      else r
  }

  /** The compose form: the chosen template id, subject and body. */
  datatype Compose = Compose(templateId: string, subject: string, body: string)

  /** The template drop-down: remember the id and, when it names a
      template, copy its subject and body into the form. */
  function ChooseTemplate(templates: seq<Template>, form: Compose, id: string): (r: Compose)
    ensures r.templateId == id
    ensures FindTemplate(templates, id).Some? ==>
      r.subject == FindTemplate(templates, id).value.subject && r.body == FindTemplate(templates, id).value.body
    ensures FindTemplate(templates, id).None? ==> r.subject == form.subject && r.body == form.body
  {
    match FindTemplate(templates, id)
    case Some(t) => Compose(id, t.subject, t.body)
    case None => Compose(id, form.subject, form.body)
  }

  /** The placeholder values for one recipient; the date is always given. */
  function VarsFor(c: Chosen, date: string): Vars {
    Vars(Some(c.name), Some(c.email), Some(date))
  }

  /** The items of the send request: one per recipient, in order, with the
      selected template's subject and body when there is one and the
      composed ones otherwise, and that recipient's values filled in by
      `applyPlaceholders` as the page calls it, `$` patterns included. */
  function BuildItems(chosen: seq<Chosen>, template: Option<Template>, subject: string, body: string, dateAt: nat -> string): (items: seq<Item>)
    ensures |items| == |chosen|
    ensures forall i :: 0 <= i < |chosen| ==> items[i].email == chosen[i].email
    ensures forall i :: 0 <= i < |chosen| ==>
      && items[i].subject == ApplyPlaceholdersAsWritten(if template.Some? then template.value.subject else subject, VarsFor(chosen[i], dateAt(i)), dateAt(i))
      && items[i].body == ApplyPlaceholdersAsWritten(if template.Some? then template.value.body else body, VarsFor(chosen[i], dateAt(i)), dateAt(i))
  {
    var s := if template.Some? then template.value.subject else subject;
    var b := if template.Some? then template.value.body else body;
    seq(|chosen|, i requires 0 <= i < |chosen| =>
      Item(chosen[i].email, ApplyPlaceholdersAsWritten(s, VarsFor(chosen[i], dateAt(i)), dateAt(i)),
                            ApplyPlaceholdersAsWritten(b, VarsFor(chosen[i], dateAt(i)), dateAt(i))))
  }

  /** A template without placeholders reaches every recipient as it is,
      whatever was typed in the form. */
  lemma PlainTemplateSentVerbatim(chosen: seq<Chosen>, t: Template, subject: string, body: string, dateAt: nat -> string)
    requires !Contains(t.subject, ClientNameToken) && !Contains(t.subject, EmailToken) && !Contains(t.subject, DateToken)
    requires !Contains(t.body, ClientNameToken) && !Contains(t.body, EmailToken) && !Contains(t.body, DateToken)
    ensures forall i :: 0 <= i < |chosen| ==>
      BuildItems(chosen, Some(t), subject, body, dateAt)[i] == Item(chosen[i].email, t.subject, t.body)
  {
    var items := BuildItems(chosen, Some(t), subject, body, dateAt);
    forall i | 0 <= i < |chosen| ensures items[i] == Item(chosen[i].email, t.subject, t.body) {
      NoTokensUnchanged(t.subject, VarsFor(chosen[i], dateAt(i)), dateAt(i));
      NoTokensUnchanged(t.body, VarsFor(chosen[i], dateAt(i)), dateAt(i));
    }
  }

  /** When no recipient's name or address and no date holds a `$`, every
      item carries exactly the values, inserted as they are. */
  lemma BuildItemsVerbatim(chosen: seq<Chosen>, template: Option<Template>, subject: string, body: string, dateAt: nat -> string)
    requires forall i :: 0 <= i < |chosen| ==> '$' !in chosen[i].name && '$' !in chosen[i].email && '$' !in dateAt(i)
    ensures var items := BuildItems(chosen, template, subject, body, dateAt);
      forall i :: 0 <= i < |chosen| ==>
        && items[i].subject == ApplyPlaceholders(if template.Some? then template.value.subject else subject, VarsFor(chosen[i], dateAt(i)), dateAt(i))
        && items[i].body == ApplyPlaceholders(if template.Some? then template.value.body else body, VarsFor(chosen[i], dateAt(i)), dateAt(i))
  {
    var s := if template.Some? then template.value.subject else subject;
    var b := if template.Some? then template.value.body else body;
    forall i | 0 <= i < |chosen|
      ensures ApplyPlaceholdersAsWritten(s, VarsFor(chosen[i], dateAt(i)), dateAt(i)) == ApplyPlaceholders(s, VarsFor(chosen[i], dateAt(i)), dateAt(i))
      ensures ApplyPlaceholdersAsWritten(b, VarsFor(chosen[i], dateAt(i)), dateAt(i)) == ApplyPlaceholders(b, VarsFor(chosen[i], dateAt(i)), dateAt(i))
    {
      AsWrittenAgrees(s, VarsFor(chosen[i], dateAt(i)), dateAt(i));
      AsWrittenAgrees(b, VarsFor(chosen[i], dateAt(i)), dateAt(i));
    }
  }

  /** Sending from the page: when the route answers 200, it reports one
      result per selected client, addressed in the order of the list. */
  lemma SendReportsSelected(clients: seq<Client>, sel: Selection, template: Option<Template>, subject: string, body: string,
                            dateAt: nat -> string, isEmail: string -> bool, id: string, email: Option<string>,
                            store: AuthTokens.TokenStore, oracle: Oracle)
    ensures var chosen := SelectedEmails(clients, sel);
      var items := BuildItems(chosen, template, subject, body, dateAt);
      var h := Post(Json(Body(Some(items), None, None, None)), isEmail, SignedIn(id, email), store, oracle);
      h.response.status == 200 ==>
        && h.response.payload.total == |chosen|
        && forall i :: 0 <= i < |chosen| ==> h.response.payload.results[i].email == chosen[i].email
  {
    var chosen := SelectedEmails(clients, sel);
    ItemsAnswered(BuildItems(chosen, template, subject, body, dateAt), isEmail, id, email, store, oracle);
  }

  /** One preview card: the address, and the filled-in subject and body
      with the page's fallbacks for empty ones. */
  datatype Card = Card(email: string, subject: string, body: string)

  /** `s || fallback` on a string. */
  function OrText(s: string, fallback: string): (r: string)
    ensures s != "" ==> r == s
    ensures s == "" ==> r == fallback
  {
    if s != "" then s else fallback
  }

  /** The preview: a card for each of the first three recipients, filled
      in from the composed subject and body. */
  function PreviewCards(chosen: seq<Chosen>, subject: string, body: string, dateAt: nat -> string): (cards: seq<Card>)
    ensures |cards| == if |chosen| < 3 then |chosen| else 3
    ensures forall i :: 0 <= i < |cards| ==> cards[i].email == chosen[i].email
  {
    var shown := if |chosen| < 3 then chosen else chosen[..3];
    seq(|shown|, i requires 0 <= i < |shown| =>
      Card(shown[i].email,
           OrText(ApplyPlaceholdersAsWritten(subject, VarsFor(shown[i], dateAt(i)), dateAt(i)), "(no subject)"),
           OrText(ApplyPlaceholdersAsWritten(body, VarsFor(shown[i], dateAt(i)), dateAt(i)), "(empty body)")))
  }

  /** Without a template, each preview card is for the recipient the send
      request addresses at that position. The preview reads the clock when
      it is drawn (`previewAt`) and the send when it is issued (`sendAt`),
      so card and item share the text before the date pass and each puts
      in its own date: they say the same whenever that text has no
      `{{date}}` left, or the two readings agree. */
  lemma PreviewMatchesItems(chosen: seq<Chosen>, subject: string, body: string, previewAt: nat -> string, sendAt: nat -> string)
    ensures var cards := PreviewCards(chosen, subject, body, previewAt);
      var items := BuildItems(chosen, None, subject, body, sendAt);
      && |cards| <= |items|
      && forall i :: 0 <= i < |cards| ==>
        var subjectBefore := BeforeDatePass(subject, chosen[i].name, chosen[i].email);
        var bodyBefore := BeforeDatePass(body, chosen[i].name, chosen[i].email);
        && cards[i].email == items[i].email
        && cards[i].subject == OrText(ReplaceAllJs(subjectBefore, DateToken, previewAt(i)), "(no subject)")
        && items[i].subject == ReplaceAllJs(subjectBefore, DateToken, sendAt(i))
        && cards[i].body == OrText(ReplaceAllJs(bodyBefore, DateToken, previewAt(i)), "(empty body)")
        && items[i].body == ReplaceAllJs(bodyBefore, DateToken, sendAt(i))
        && (!Contains(subjectBefore, DateToken) || previewAt(i) == sendAt(i) ==>
              cards[i].subject == OrText(items[i].subject, "(no subject)"))
        && (!Contains(bodyBefore, DateToken) || previewAt(i) == sendAt(i) ==>
              cards[i].body == OrText(items[i].body, "(empty body)"))
  {
    var cards := PreviewCards(chosen, subject, body, previewAt);
    forall i | 0 <= i < |cards|
      ensures !Contains(BeforeDatePass(subject, chosen[i].name, chosen[i].email), DateToken) ==>
        ApplyPlaceholdersAsWritten(subject, VarsFor(chosen[i], previewAt(i)), previewAt(i))
        == ApplyPlaceholdersAsWritten(subject, VarsFor(chosen[i], sendAt(i)), sendAt(i))
      ensures !Contains(BeforeDatePass(body, chosen[i].name, chosen[i].email), DateToken) ==>
        ApplyPlaceholdersAsWritten(body, VarsFor(chosen[i], previewAt(i)), previewAt(i))
        == ApplyPlaceholdersAsWritten(body, VarsFor(chosen[i], sendAt(i)), sendAt(i))
    {
      DateOnlyInLastPass(subject, chosen[i].name, chosen[i].email, previewAt(i), sendAt(i));
      DateOnlyInLastPass(body, chosen[i].name, chosen[i].email, previewAt(i), sendAt(i));
      DateOnlyInLastPass(subject, chosen[i].name, chosen[i].email, sendAt(i), previewAt(i));
      DateOnlyInLastPass(body, chosen[i].name, chosen[i].email, sendAt(i), previewAt(i));
    }
  }

  /** The "To:" line: the addresses joined by ", ", or "(none)" when that
      join is empty, which happens only with no recipient or a single one
      with an empty address. */
  function ToLine(chosen: seq<Chosen>): (r: string)
    ensures |chosen| == 0 || (|chosen| == 1 && chosen[0].email == "") ==> r == "(none)"
    ensures |chosen| > 1 || (|chosen| == 1 && chosen[0].email != "") ==>
      r == Join(seq(|chosen|, i requires 0 <= i < |chosen| => chosen[i].email), ", ")
  {
    var emails := seq(|chosen|, i requires 0 <= i < |chosen| => chosen[i].email);
    var line := Join(emails, ", ");
    assert |chosen| > 1 || (|chosen| == 1 && chosen[0].email != "") ==> line != "" by {
      if |chosen| > 1 {
        JoinCons(emails[0], emails[1..], ", ");
        assert emails == [emails[0]] + emails[1..];
      } else if |chosen| == 1 {
        JoinStartsWithFirst(emails, ", ");
      }
    }
    OrText(line, "(none)")
  }

  /** A join starts with its first part. */
  lemma JoinStartsWithFirst(parts: seq<string>, sep: string)
    requires |parts| > 0
    ensures |Join(parts, sep)| >= |parts[0]| && Join(parts, sep)[..|parts[0]|] == parts[0]
  {
    if |parts| > 1 {
      JoinCons(parts[0], parts[1..], sep);
      assert parts == [parts[0]] + parts[1..];
    }
  }

  /** The failure list under the result: shown when some result failed,
      and then holding the failed results in order. */
  function FailureList(results: seq<SendResult>): (r: Option<seq<Failure>>)
    ensures r.Some? <==> exists i :: 0 <= i < |results| && !results[i].success
    ensures r.Some? ==> r.value == Failures(results)
  {
    if exists i :: 0 <= i < |results| && !results[i].success then Some(Failures(results)) else None
  }

  /** The listed failures are exactly the failed results: every failed
      result is listed, every listed one failed, and their number is what
      was not sent. */
  lemma FailureListExact(results: seq<SendResult>)
    ensures var r := FailureList(results);
      r.Some? ==>
        && (forall i :: 0 <= i < |results| && !results[i].success ==> Failure(results[i].email, results[i].error) in r.value)
        && (forall f :: f in r.value ==> exists i :: 0 <= i < |results| && !results[i].success && f == Failure(results[i].email, results[i].error))
        && |r.value| == |results| - CountSent(results)
  {
    SentPlusFailures(results);
    forall i | 0 <= i < |results| && !results[i].success
      ensures Failure(results[i].email, results[i].error) in Failures(results)
    {
      FailuresComplete(results, i);
    }
  }
}
