/** The account services: deposit validation, deposit, reset and username update. */
module AccountServices {

  import opened Common
  import opened Coins
  import opened AccountModels
  import Ledger

  const DepositMultipleMessage: string := "Deposit amount can only be a multiple of 5."
  const DepositRangeMessage: string := "Deposit amount can be set values between 0 to 100."
  const UsernameTakenMessage: string := "Username is already taken. Please choose another one"

  /** The `{"deposit": ...}` response body. */
  datatype DepositResponse = DepositResponse(deposit: int)

  /**
   * Both rules are checked; each violated one contributes its message, the
   * multiple-of-5 rule first.
   */
  function ValidateUserDeposit(amount: int): (errors: seq<string>)
    ensures errors == [] <==> IsCoinAmount(amount)
    ensures DepositMultipleMessage in errors <==> !IsCoinMultiple(amount)
    ensures DepositRangeMessage in errors <==> !InCoinRange(amount)
    ensures forall m :: m in errors ==> m == DepositMultipleMessage || m == DepositRangeMessage
    ensures |errors| <= 2
    ensures |errors| == 2 ==> errors == [DepositMultipleMessage, DepositRangeMessage]
  {
    assert DepositMultipleMessage[19] != DepositRangeMessage[19];
    (if amount % 5 != 0 then [DepositMultipleMessage] else [])
    + (if amount > 100 || amount < 0 then [DepositRangeMessage] else [])
  }

  /**
   * Credits a valid amount to the buyer and reports the new balance; an
   * invalid amount leaves the balance alone and reports the validator's
   * messages under "amount".
   */
  method DepositAmount(amount: int, buyer: User) returns (response: Option<DepositResponse>, errors: Errors)
    requires 1 <= amount <= 1000
    modifies buyer
    ensures buyer.deposit == Ledger.Deposit(old(buyer.deposit), amount)
    ensures IsCoinAmount(amount) ==>
      buyer.deposit == old(buyer.deposit) + amount
      && response == Some(DepositResponse(buyer.deposit)) && errors == map[]
    ensures !IsCoinAmount(amount) ==>
      buyer.deposit == old(buyer.deposit)
      && response == None && errors == map["amount" := ValidateUserDeposit(amount)]
    ensures old(buyer.deposit) >= 0 ==> buyer.deposit >= 0
    ensures buyer.username == old(buyer.username)
  {
    response, errors := None, map[];
    var errorMessage := ValidateUserDeposit(amount);
    if errorMessage != [] {
      errors := map["amount" := errorMessage];
    } else {
      buyer.deposit := buyer.deposit + amount;
      response := Some(DepositResponse(buyer.deposit));
    }
  }

  /** Sets the balance to 0, whatever it was, and reports it. */
  method ResetDeposit(buyer: User) returns (response: DepositResponse)
    modifies buyer
    ensures buyer.deposit == Ledger.Reset(old(buyer.deposit)) == 0
    ensures response == DepositResponse(0)
    ensures buyer.username == old(buyer.username)
  {
    buyer.deposit := 0;
    response := DepositResponse(buyer.deposit);
  }

  /**
   * Renames user `pk` unless another row already holds the name; asking
   * for one's own current name is not an error and changes nothing.
   * Returns the user's username afterwards and the errors.
   */
  method UpdateUser(users: UserTable, pk: nat, username: string) returns (current: string, errors: Errors)
    requires users.Valid() && pk in users.usernames
    modifies users
    ensures users.Valid()
    ensures old(users.HeldByOther(pk, username)) ==>
      errors == map["username" := [UsernameTakenMessage]] && users.usernames == old(users.usernames)
    ensures !old(users.HeldByOther(pk, username)) ==>
      errors == map[] && users.usernames == old(users.usernames)[pk := username]
    ensures pk in users.usernames && current == users.usernames[pk]
  {
    errors := map[];
    if users.Holds(username) {
      var other :| other in users.usernames && users.usernames[other] == username;
      errors := map["username" := [UsernameTakenMessage]];
      if other == pk {
        errors := map[];
        assert users.usernames == users.usernames[pk := username];
      }
    } else {
      users.usernames := users.usernames[pk := username];
    }
    current := users.usernames[pk];
  }

  /** A rejected amount leaves the balance as it was; 13 gets only the multiple-of-5 message. */
  lemma DepositOfThirteenRejected(balance: int)
    ensures ValidateUserDeposit(13) == [DepositMultipleMessage]
    ensures Ledger.Deposit(balance, 13) == balance
  {
  }

  /** 0 is a valid amount: the validator accepts it and it credits nothing. */
  lemma DepositOfZeroAccepted(balance: int)
    ensures ValidateUserDeposit(0) == []
    ensures Ledger.Deposit(balance, 0) == balance
  {
  }
}
