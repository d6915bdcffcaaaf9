/** The amortization schedule of a loan. Money is integer cents, dates are day ordinals. */
module Amortization {
  import opened Wrappers
  import opened Rounding

  datatype Installment = Installment(due: int, amount: int, remaining: int)

  /** The half-up monthly payment of a balance over n terms. */
  function MonthlyPayment(balance: int, terms: int): int
    requires terms > 0
  {
    HalfUp(balance, terms)
  }

  /** The rows from term i on, starting from what is left of the balance. */
  function Schedule(left: int, payment: int, start: int, i: nat, terms: nat): seq<Installment>
    requires i <= terms
    decreases terms - i
  {
    if i == terms then []
    else
      var amount := if left > payment then payment else left;
      var row := Installment(start + 30 * i, amount, left - amount);
      if left - amount <= 0 then [row] else [row] + Schedule(left - amount, payment, start, i + 1, terms)
  }

  /** None when dividing by zero terms fails. A negative number of terms writes no rows. */
  method CreateSchedule(balance: int, terms: int, start: int) returns (rows: Option<seq<Installment>>)
    ensures rows == if terms == 0 then None
                    else if terms < 0 then Some([])
                    else Some(Schedule(balance, MonthlyPayment(balance, terms), start, 0, terms))
  {
    if terms == 0 {
      return None;
    }
    if terms < 0 {
      return Some([]);
    }
    var payment := MonthlyPayment(balance, terms);
    var written: seq<Installment> := [];
    var left := balance;
    var i := 0;
    ghost var whole := Schedule(balance, payment, start, 0, terms);
    while i < terms
      invariant 0 <= i <= terms
      invariant written + Schedule(left, payment, start, i, terms) == whole
    {
      var due := start + i * 30;
      var amount := if left > payment then payment else left;
      ghost var before, row := written, Installment(due, amount, left - amount);
      ghost var rest := Schedule(left, payment, start, i, terms)[1..];
      assert Schedule(left, payment, start, i, terms) == [row] + rest;
      written := written + [Installment(due, amount, left - amount)];
      assert before + ([row] + rest) == written + rest;
      left := left - amount;
      if left <= 0 {
        assert written + [] == written;
        return Some(written);
      }
      i := i + 1;
    }
    assert written + [] == written;
    rows := Some(written);
  }

  /** The first n amounts together. */
  function Paid(rows: seq<Installment>, n: nat): int
    requires n <= |rows|
  {
    if n == 0 then 0 else Paid(rows, n - 1) + rows[n - 1].amount
  }

  lemma {:induction false} PaidTail(row: Installment, rows: seq<Installment>, n: nat)
    requires n <= |rows|
    ensures Paid([row] + rows, n + 1) == row.amount + Paid(rows, n)
  {
    if n > 0 {
      PaidTail(row, rows, n - 1);
      assert ([row] + rows)[n] == rows[n - 1];
    }
  }

  /** Row k of a schedule: due 30k days after the first, an amount between nothing and the payment,
      and a remaining balance that is what was owed less everything due so far. */
  lemma {:induction false} RowsAddUp(left: int, payment: int, start: int, i: nat, terms: nat, k: nat)
    requires 0 <= left && 0 <= payment && i <= terms
    requires k < |Schedule(left, payment, start, i, terms)|
    ensures var rows := Schedule(left, payment, start, i, terms);
      && rows[k].due == start + 30 * (i + k)
      && 0 <= rows[k].amount <= payment
      && 0 <= rows[k].remaining == left - Paid(rows, k + 1)
    decreases terms - i
  {
    var rows := Schedule(left, payment, start, i, terms);
    var row := rows[0];
    if k == 0 {
      assert Paid(rows, 1) == Paid(rows, 0) + row.amount;
    } else {
      var rest := Schedule(left - row.amount, payment, start, i + 1, terms);
      assert rows == [row] + rest;
      RowsAddUp(left - row.amount, payment, start, i + 1, terms, k - 1);
      PaidTail(row, rest, k);
    }
  }

  /** What n full payments come to. */
  function Payments(n: nat, payment: int): int {
    if n == 0 then 0 else Payments(n - 1, payment) + payment
  }

  lemma {:induction false} PaymentsMultiply(n: nat, payment: int)
    ensures Payments(n, payment) == n * payment
  {
    if n > 0 {
      PaymentsMultiply(n - 1, payment);
      assert n * payment == (n - 1) * payment + payment;
    }
  }

  lemma {:induction false} PaymentsNonNegative(n: nat, payment: nat)
    ensures Payments(n, payment) >= 0
  {
    if n > 0 {
      PaymentsNonNegative(n - 1, payment);
    }
  }

  /** The payment is the balance over the terms, to the nearest cent, halves going up. */
  lemma PaymentMeans(balance: nat, terms: int)
    requires terms > 0
    ensures var payment := MonthlyPayment(balance, terms);
      -terms < 2 * (payment * terms) - 2 * balance <= terms
  {
  }

  /** Every row but the last is a full payment and leaves something owed; the last settles what is left up to a
      full payment, and is the last because nothing is left or no term is. */
  lemma {:induction false} RowsFill(left: int, payment: int, start: int, i: nat, terms: nat, k: nat)
    requires 0 <= left && 0 <= payment && i <= terms
    requires k < |Schedule(left, payment, start, i, terms)|
    ensures var rows := Schedule(left, payment, start, i, terms);
      var owed := rows[k].amount + rows[k].remaining;
      && |rows| <= terms - i
      && rows[k].amount == (if owed > payment then payment else owed)
      && (k + 1 < |rows| ==> rows[k].remaining > 0)
      && (k + 1 == |rows| ==> rows[k].remaining == 0 || |rows| == terms - i)
    decreases terms - i
  {
    var rows := Schedule(left, payment, start, i, terms);
    if left - rows[0].amount > 0 {
      var rest := Schedule(left - rows[0].amount, payment, start, i + 1, terms);
      assert rows == [rows[0]] + rest;
      if rest == [] {
        assert i + 1 == terms;
      } else {
        RowsFill(left - rows[0].amount, payment, start, i + 1, terms, if k > 0 then k - 1 else 0);
      }
    }
  }

  /** The schedule settles what its terms' full payments can, and never more than is owed. */
  lemma {:induction false} ScheduleTotal(left: int, payment: int, start: int, i: nat, terms: nat)
    requires 0 <= left && 0 <= payment && i <= terms
    ensures var rows := Schedule(left, payment, start, i, terms);
      left - Paid(rows, |rows|) == if left > Payments(terms - i, payment) then left - Payments(terms - i, payment)
          else 0
    decreases terms - i
  {
    var rows := Schedule(left, payment, start, i, terms);
    if i < terms {
      PaymentsNonNegative(terms - i - 1, payment);
      var row := rows[0];
      if left - row.amount <= 0 {
        assert Paid(rows, 1) == Paid(rows, 0) + row.amount;
      } else {
        var rest := Schedule(left - row.amount, payment, start, i + 1, terms);
        assert rows == [row] + rest;
        ScheduleTotal(left - row.amount, payment, start, i + 1, terms);
        PaidTail(row, rest, |rest|);
      }
    }
  }

  /** The final unpaid residue is exactly what the rounded payment falls short by over all terms, and
      always less than half a cent a term. */
  lemma ResidueExact(balance: nat, terms: int, start: int)
    requires terms > 0
    ensures var payment := MonthlyPayment(balance, terms);
      var rows := Schedule(balance, payment, start, 0, terms);
      var residue := balance - Paid(rows, |rows|);
      && residue == (if balance > terms * payment then balance - terms * payment else 0)
      && 0 <= 2 * residue < terms
  {
    ScheduleTotal(balance, MonthlyPayment(balance, terms), start, 0, terms);
    PaymentsMultiply(terms, MonthlyPayment(balance, terms));
    assert terms * MonthlyPayment(balance, terms) == MonthlyPayment(balance, terms) * terms;
  }

  /** The residue can be real: a balance of 10.00 over three terms is left one cent short. */
  lemma OneCentLeft(start: int)
    ensures var rows := Schedule(1000, MonthlyPayment(1000, 3), start, 0, 3);
      rows == [Installment(start, 333, 667), Installment(start + 30, 333, 334), Installment(start + 60, 333, 1)]
  {
    assert MonthlyPayment(1000, 3) == 333;
    assert Schedule(1, 333, start, 3, 3) == [];
    assert Schedule(334, 333, start, 2, 3) == [Installment(start + 60, 333, 1)];
    assert Schedule(667, 333, start, 1, 3) == [Installment(start + 30, 333, 334), Installment(start + 60, 333, 1)];
  }
}
