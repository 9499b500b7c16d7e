/** The nightly job that mails the customers of late loans, and the mail sender
    it hands the list to. */
module ScheduleService {
  import opened Wrappers
  import opened Entity
  import opened LoanService
  import LoanController

  const LateLoanMessage := "Atenção! Você tem um empréstimo atrasado. Favor devolver o livro mais rápido possível."

  const LateLoanSubject := "Livro com empréstimo atrasado"

  /** The contact of each late loan, in the order of the list; an absent
      contact stays in the list as a `null` entry. */
  function Recipients(late: seq<Loan>): (r: seq<Option<string>>)
    ensures |r| == |late|
    ensures forall i :: 0 <= i < |late| ==> r[i] == late[i].customerEmail
  {
    if late == [] then [] else [late[0].customerEmail] + Recipients(late[1..])
  }

  /** One message handed to the mail transport. */
  datatype Mail = Mail(from: string, subject: string, text: string, to: seq<Option<string>>)

  /** The email service: every call builds one message from the configured
      sender, with the fixed subject, and hands it to the transport. */
  class Mailer {
    const sender: string
    var sent: seq<Mail>

    constructor (sender: string)
      ensures this.sender == sender && sent == []
    {
      this.sender := sender;
      sent := [];
    }

    method SendEmails(message: string, emailList: seq<Option<string>>)
      modifies this
      ensures sent == old(sent) + [Mail(sender, LateLoanSubject, message, emailList)]
    {
      sent := sent + [Mail(sender, LateLoanSubject, message, emailList)];
    }
  }

  /** `sendMailToLateLoans`: one message, with the fixed text, addressed to the
      contacts of all late loans; it is sent even when no loan is late. */
  method SendMailToLateLoans(ledger: Ledger, mailer: Mailer, today: int)
    modifies mailer
    ensures mailer.sent ==
              old(mailer.sent) + [Mail(mailer.sender, LateLoanSubject, LateLoanMessage,
                                       Recipients(AllLateLoans(ledger.loans, today)))]
  {
    var list := AllLateLoans(ledger.loans, today);
    var emailList := Recipients(list);
    mailer.SendEmails(LateLoanMessage, emailList);
  }

  /** The list mails exactly the late loans: every position belongs to an open
      loan lent more than four days before today, and every such loan's contact
      is on the list. */
  lemma RecipientsAreTheLateLoans(loans: seq<Loan>, today: int)
    ensures var to := Recipients(AllLateLoans(loans, today));
            && (forall i :: 0 <= i < |to| ==>
                  exists j :: 0 <= j < |loans| && !loans[j].returned && loans[j].loanDate < today - LateAfterDays
                              && to[i] == loans[j].customerEmail)
            && (forall j :: 0 <= j < |loans| && !loans[j].returned && loans[j].loanDate < today - LateAfterDays ==>
                  loans[j].customerEmail in to)
  {
    var late := AllLateLoans(loans, today);
    var to := Recipients(late);
    forall j | 0 <= j < |loans| && !loans[j].returned && loans[j].loanDate < today - LateAfterDays
      ensures loans[j].customerEmail in to
    {
      var k :| 0 <= k < |late| && late[k] == loans[j];
      assert to[k] == loans[j].customerEmail;
    }
  }

  /** Loans only enter the ledger through the loan endpoints, which copy no
      contact: every entry of the late-loan list is `null`, whatever requests
      were served. */
  lemma RecipientsOfServedLoansAreAbsent(books: seq<Book>, reqs: seq<LoanController.Request>, today: int)
    ensures var to := Recipients(AllLateLoans(LoanController.Run(books, [], reqs), today));
            forall i :: 0 <= i < |to| ==> to[i].None?
    ensures var to := Recipients(AllLateLoans(LoanController.RunAsWritten(books, [], reqs), today));
            forall i :: 0 <= i < |to| ==> to[i].None?
  {
    LoanController.RunsLeaveEmailsAbsent(books, [], reqs);
  }
}
