/**
 * The Gmail endpoints over an in-memory table of accounts and emails: listing a user's
 * accounts, disconnecting one (a soft delete), and fetching a batch of emails into the
 * emails table, skipping those already stored for that account.
 */
module GmailEndpoints {
  import opened Wrappers
  import opened GmailService

  /** A row of the emails table; `status` takes its column default "unprocessed". */
  datatype EmailRow = EmailRow(
    gmailId: string, threadId: string, subject: string, senderName: string, senderEmail: string,
    receivedAt: int, bodyText: string, bodyHtml: string, hasAttachments: bool,
    accountId: int, status: string)

  /** The row inserted for a fetched email: its fields, under the requested account. */
  function RowFor(e: EmailData, accountId: int): EmailRow {
    EmailRow(e.gmailId, e.threadId, e.subject, e.senderName, e.senderEmail, e.receivedAt,
             e.bodyText, e.bodyHtml, e.hasAttachments, accountId, "unprocessed")
  }

  /** Some stored row has this Gmail id under this account. */
  predicate IsStored(rows: seq<EmailRow>, gmailId: string, accountId: int) {
    exists r :: r in rows && r.gmailId == gmailId && r.accountId == accountId
  }

  /**
   * The rows a batch adds: one per fetched email, in batch order, unless a row stored
   * before the batch already has its Gmail id under the account. Rows added earlier in
   * the same batch are not consulted (the session does not flush before its queries).
   */
  function NewRows(stored: seq<EmailRow>, batch: seq<EmailData>, accountId: int): seq<EmailRow> {
    if |batch| == 0 then []
    else
      var e := batch[|batch| - 1];
      NewRows(stored, batch[..|batch| - 1], accountId) +
      (if IsStored(stored, e.gmailId, accountId) then [] else [RowFor(e, accountId)])
  }

  /**
   * Every added row copies a fetched email under the account and had no stored duplicate;
   * every fetched email either had a stored duplicate or is added.
   */
  lemma {:induction false} NewRowsSpec(stored: seq<EmailRow>, batch: seq<EmailData>, accountId: int)
    ensures forall x :: x in NewRows(stored, batch, accountId) ==>
      x.accountId == accountId && !IsStored(stored, x.gmailId, accountId) &&
      exists e :: e in batch && x == RowFor(e, accountId)
    ensures forall e :: e in batch ==>
      IsStored(stored, e.gmailId, accountId) || RowFor(e, accountId) in NewRows(stored, batch, accountId)
    decreases |batch|
  {
    if |batch| > 0 {
      var init := batch[..|batch| - 1];
      NewRowsSpec(stored, init, accountId);
      assert batch == init + [batch[|batch| - 1]];
    }
  }

  /** Storing the same batch a second time adds nothing. */
  lemma StoreTwiceAddsNothing(stored: seq<EmailRow>, batch: seq<EmailData>, accountId: int)
    ensures NewRows(stored + NewRows(stored, batch, accountId), batch, accountId) == []
  {
    var after := stored + NewRows(stored, batch, accountId);
    NewRowsSpec(stored, batch, accountId);
    forall e | e in batch
      ensures IsStored(after, e.gmailId, accountId)
    {
      if !IsStored(stored, e.gmailId, accountId) {
        assert RowFor(e, accountId) in after;
      } else {
        var r :| r in stored && r.gmailId == e.gmailId && r.accountId == accountId;
        assert r in after;
      }
    }
    AllStoredAddsNothing(after, batch, accountId);
  }

  lemma {:induction false} AllStoredAddsNothing(stored: seq<EmailRow>, batch: seq<EmailData>, accountId: int)
    requires forall e :: e in batch ==> IsStored(stored, e.gmailId, accountId)
    ensures NewRows(stored, batch, accountId) == []
    decreases |batch|
  {
    if |batch| > 0 {
      assert batch[|batch| - 1] in batch;
      var init := batch[..|batch| - 1];
      assert forall e :: e in init ==> e in batch;
      AllStoredAddsNothing(stored, init, accountId);
    }
  }

  /**
   * Two fetched emails with the same Gmail id in one batch, not yet stored for the account,
   * are both added.
   */
  lemma DuplicatesWithinBatchBothAdded(stored: seq<EmailRow>, e1: EmailData, e2: EmailData, accountId: int)
    requires e1.gmailId == e2.gmailId && !IsStored(stored, e1.gmailId, accountId)
    ensures NewRows(stored, [e1, e2], accountId) == [RowFor(e1, accountId), RowFor(e2, accountId)]
  {
    assert [e1, e2][..1] == [e1];
    assert [e1][..0] == [];
    assert NewRows(stored, [e1], accountId) == [RowFor(e1, accountId)];
  }

  /** No two rows share a Gmail id under the same account. */
  predicate UniquePerAccount(rows: seq<EmailRow>) {
    forall i, j :: 0 <= i < j < |rows| ==> !(rows[i].gmailId == rows[j].gmailId && rows[i].accountId == rows[j].accountId)
  }

  predicate DistinctGmailIds(batch: seq<EmailData>) {
    forall i, j :: 0 <= i < j < |batch| ==> batch[i].gmailId != batch[j].gmailId
  }

  /** A batch without repeated Gmail ids keeps the table free of duplicates. */
  lemma {:induction false} NewRowsKeepUnique(stored: seq<EmailRow>, batch: seq<EmailData>, accountId: int)
    requires UniquePerAccount(stored) && DistinctGmailIds(batch)
    ensures UniquePerAccount(stored + NewRows(stored, batch, accountId))
    decreases |batch|
  {
    if |batch| > 0 {
      var init := batch[..|batch| - 1];
      var e := batch[|batch| - 1];
      NewRowsKeepUnique(stored, init, accountId);
      if !IsStored(stored, e.gmailId, accountId) {
        var before := stored + NewRows(stored, init, accountId);
        var row := RowFor(e, accountId);
        NewRowsSpec(stored, init, accountId);
        forall x | x in before
          ensures !(x.gmailId == row.gmailId && x.accountId == accountId)
        {
          if x !in stored {
            var e' :| e' in init && x == RowFor(e', accountId);
            var k :| 0 <= k < |init| && init[k] == e';
            assert batch[k] == e';
          }
        }
        forall i | 0 <= i < |before|
          ensures !(before[i].gmailId == row.gmailId && before[i].accountId == row.accountId)
        {
          assert before[i] in before;
        }
        assert stored + NewRows(stored, batch, accountId) == before + [row];
      } else {
        assert NewRows(stored, batch, accountId) == NewRows(stored, init, accountId);
      }
    }
  }

  /** The response of the fetch endpoint. */
  datatype FetchResponse = Started | NotFound | Unhandled

  /** The response of the disconnect endpoint. */
  datatype DisconnectResponse = Disconnected | AccountNotFound

  /** The first account with this id in `accounts` that `userId` owns. */
  function FindOwnedIn(accounts: seq<GmailAccount>, userId: int, accountId: int): (r: Option<GmailAccount>)
    reads set a | a in accounts
    ensures r.Some? ==> r.value in accounts && r.value.id == accountId && r.value.userId == userId
    ensures r.None? ==> forall a :: a in accounts ==> !(a.id == accountId && a.userId == userId)
  {
    if |accounts| == 0 then None
    else if accounts[0].id == accountId && accounts[0].userId == userId then Some(accounts[0])
    else FindOwnedIn(accounts[1..], userId, accountId)
  }

  /** The accounts `userId` owns, in table order. */
  function OwnedBy(accounts: seq<GmailAccount>, userId: int): (r: seq<GmailAccount>)
    reads set a | a in accounts
    ensures forall a :: a in r ==> a in accounts && a.userId == userId
    ensures forall a :: a in accounts && a.userId == userId ==> a in r
  {
    if |accounts| == 0 then []
    else (if accounts[0].userId == userId then [accounts[0]] else []) + OwnedBy(accounts[1..], userId)
  }

  /** The tables: Gmail accounts (objects updated in place) and email rows. */
  class Database {
    var accounts: seq<GmailAccount>
    var emails: seq<EmailRow>

    constructor (accounts: seq<GmailAccount>, emails: seq<EmailRow>)
      ensures this.accounts == accounts && this.emails == emails
    {
      this.accounts := accounts;
      this.emails := emails;
    }

    /** The account the request names, if the current user owns it. */
    function FindOwned(userId: int, accountId: int): Option<GmailAccount>
      reads this, set a | a in accounts
    {
      FindOwnedIn(accounts, userId, accountId)
    }

    /** `list_gmail_accounts`: exactly the accounts whose owner is the current user. */
    function ListAccounts(userId: int): (r: seq<GmailAccount>)
      reads this, set a | a in accounts
      ensures r == OwnedBy(accounts, userId)
    {
      OwnedBy(accounts, userId)
    }

    /**
     * `disconnect_gmail_account`: an account the user owns is marked "inactive" and kept;
     * otherwise 404 and nothing changes. No other account is touched.
     */
    method Disconnect(userId: int, accountId: int) returns (r: DisconnectResponse)
      modifies set a | a in accounts
      ensures var found := old(FindOwned(userId, accountId));
        (found.None? <==> r == AccountNotFound) &&
        (found.Some? ==> (found.value.status == "inactive" &&
          unchanged(found.value`id, found.value`email, found.value`accessToken, found.value`refreshToken,
                    found.value`tokenExpiry, found.value`lastSync, found.value`userId)))
      ensures forall a :: a in accounts && Some(a) != old(FindOwned(userId, accountId)) ==> unchanged(a)
      ensures accounts == old(accounts) && emails == old(emails)
    {
      var found := FindOwned(userId, accountId);
      if found.None? {
        return AccountNotFound;
      }
      found.value.status := "inactive";
      r := Disconnected;
    }

    /**
     * The insert loop: each fetched email becomes a row unless a row stored before the
     * batch has its Gmail id under the account. Nothing stored is changed or removed.
     */
    method StoreNew(accountId: int, batch: seq<EmailData>)
      modifies this
      ensures emails == old(emails) + NewRows(old(emails), batch, accountId)
      ensures accounts == old(accounts)
    {
      var stored := emails;
      for i := 0 to |batch|
        invariant emails == stored + NewRows(stored, batch[..i], accountId)
        invariant accounts == old(accounts)
      {
        assert batch[..i + 1][..i] == batch[..i];
        var e := batch[i];
        if !IsStored(stored, e.gmailId, accountId) {
          emails := emails + [RowFor(e, accountId)];
        }
      }
      assert batch[..|batch|] == batch;
    }

    /**
     * `fetch_gmail_emails`: 404 when the user does not own the account; otherwise fetch
     * with the default query "is:unread" and store the new emails. When the token refresh
     * raises, the error escapes and nothing is stored.
     */
    method FetchGmailEmails(userId: int, accountId: int, maxEmails: int, sinceDate: Option<CalendarDate>,
                            now: Time, refreshed: Option<Credentials>, buildOk: bool, mailbox: Mailbox)
      returns (r: FetchResponse)
      modifies this, set a | a in accounts
      ensures accounts == old(accounts)
      ensures var found := old(FindOwned(userId, accountId));
        found.None? ==> r == NotFound && emails == old(emails) && forall a :: a in accounts ==> unchanged(a)
      ensures var found := old(FindOwned(userId, accountId));
        found.Some? ==>
          var outcome := FetchOutcomeOf(ServiceFor(old(found.value.tokenExpiry), now, refreshed, buildOk),
                                        maxEmails, "is:unread", sinceDate, mailbox);
          (outcome == Raised ==> r == Unhandled && emails == old(emails)) &&
          (outcome.Fetched? ==> r == Started && emails == old(emails) + NewRows(old(emails), outcome.emails, accountId))
      ensures var found := old(FindOwned(userId, accountId));
        found.Some? ==>
          var service := ServiceFor(old(found.value.tokenExpiry), now, refreshed, buildOk);
          (found.value.lastSync == if FetchSucceeded(service, maxEmails, "is:unread", sinceDate, mailbox)
                                   then Some(now) else old(found.value.lastSync)) &&
          (NeedsRefresh(old(found.value.tokenExpiry), now) && refreshed.Some? ==>
             found.value.accessToken == refreshed.value.token &&
             found.value.tokenExpiry == refreshed.value.expiry) &&
          (!(NeedsRefresh(old(found.value.tokenExpiry), now) && refreshed.Some?) ==>
             unchanged(found.value`accessToken, found.value`tokenExpiry)) &&
          unchanged(found.value`id, found.value`email, found.value`refreshToken, found.value`status,
                    found.value`userId)
      ensures forall a :: a in accounts && Some(a) != old(FindOwned(userId, accountId)) ==> unchanged(a)
    {
      var found := FindOwned(userId, accountId);
      if found.None? {
        return NotFound;
      }
      var account := found.value;
      var outcome := FetchEmails(account, now, refreshed, buildOk, maxEmails, "is:unread", sinceDate, mailbox);
      if outcome == Raised {
        return Unhandled;
      }
      StoreNew(account.id, outcome.emails);
      r := Started;
    }
  }
}
