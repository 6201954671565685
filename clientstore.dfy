/** The data kept in the browser's local storage by app.js (users, rentals, transactions
    and contact messages, plus the signed-in user) and the rules that change it. Clock
    readings and the random draw of a transaction id are parameters. */
module ClientStore {
  import opened Wrappers
  import Seqs
  import Text
  import Validators
  import Base64

  /** A registered user; `password` is what signup stored (`btoa` of the password). */
  datatype User = User(
    id: int,
    fullname: string,
    email: string,
    password: string,
    phone: string,
    profilePhoto: Option<string>,
    createdAt: string,
    rentals: int)

  /** The `currentUser` entry: a user without the password. Signup stores no rental count;
      login stores one. */
  datatype Session = Session(
    id: int,
    fullname: string,
    email: string,
    phone: string,
    profilePhoto: Option<string>,
    rentals: Option<int>)

  /** The fields `signupUser` reads; `None` is an absent field. */
  datatype SignupForm = SignupForm(fullname: Option<string>, email: Option<string>, password: string, phone: Option<string>)

  datatype SignupError =
    | NameTooShort
    | InvalidEmail
    | PasswordTooShort
    | InvalidPhone
    | EmailTaken
    | PasswordNotEncodable
  {
    /** The thrown error's message; each rejection has its own. */
    function Message(): (m: string)
      ensures m != ""
    {
      match this
      case NameTooShort => "Full name must be at least 3 characters"
      case InvalidEmail => "Invalid email format"
      case PasswordTooShort => "Password must be at least 6 characters"
      case InvalidPhone => "Invalid phone format (use format: 0712345678)"
      case EmailTaken => "Email already registered"
      case PasswordNotEncodable => "InvalidCharacterError"
    }
  }

  /** The single login failure: an unknown email and a wrong password are not told apart. */
  datatype LoginError = InvalidCredentials
  {
    /** One text for an unknown email and for a wrong password alike. */
    function Message(): (m: string)
      ensures m == "Invalid email or password"
    {
      "Invalid email or password"
    }
  }

  /** Every signup rejection tells the user which check failed. */
  lemma SignupErrorMessagesDiffer(a: SignupError, b: SignupError)
    requires a != b
    ensures a.Message() != b.Message()
  {
  }

  // ---------- Users ----------

  /** `(x || '')` */
  function OrEmpty(s: Option<string>): string { s.GetOr("") }

  /** `(email || '').toString().trim().toLowerCase()` */
  function NormalizedEmail(email: Option<string>): (r: string)
    ensures email.None? ==> r == ""
    ensures Text.Normalize(r) == r
  {
    Text.NormalizeIdempotent(OrEmpty(email));
    Text.Normalize(OrEmpty(email))
  }

  function NormalizedEmailOf(u: User): string { Text.Normalize(u.email) }

  function EmailMatches(normalized: string): User -> bool { (u: User) => NormalizedEmailOf(u) == normalized }

  function EmailIs(email: string): User -> bool { (u: User) => u.email == email }

  function EmailIsNot(email: string): User -> bool { (u: User) => u.email != email }

  /** What signup maintains: no two users whose emails normalise alike. */
  ghost predicate UniqueEmails(users: seq<User>) {
    forall i, j :: 0 <= i < j < |users| ==> NormalizedEmailOf(users[i]) != NormalizedEmailOf(users[j])
  }

  /** The four field checks of `signupUser`, before the duplicate check. */
  predicate FieldsValid(form: SignupForm) {
    && |OrEmpty(form.fullname)| >= 3
    && Validators.ValidateEmail(NormalizedEmail(form.email))
    && |form.password| >= 6
    && !(Text.Truthy(form.phone) && !Validators.ValidatePhone(form.phone.value))
  }

  /** `signupUser`, as the record it would store. The checks run in order: name of at
      least 3 characters, email format of the normalised email, password of at least 6
      characters, phone format when a phone is given, then no stored email that
      normalises to the same; finally `btoa` must accept the password. */
  function SignupUser(users: seq<User>, form: SignupForm, now: int, isoNow: string): (r: Result<User, SignupError>)
    ensures |OrEmpty(form.fullname)| < 3 ==> r == Err(NameTooShort)
    ensures |OrEmpty(form.fullname)| >= 3 && !Validators.ValidateEmail(NormalizedEmail(form.email)) ==> r == Err(InvalidEmail)
    ensures |OrEmpty(form.fullname)| >= 3 && Validators.ValidateEmail(NormalizedEmail(form.email)) && |form.password| < 6
      ==> r == Err(PasswordTooShort)
    ensures (|OrEmpty(form.fullname)| >= 3 && Validators.ValidateEmail(NormalizedEmail(form.email)) && |form.password| >= 6
      && Text.Truthy(form.phone) && !Validators.ValidatePhone(form.phone.value)) ==> r == Err(InvalidPhone)
    ensures FieldsValid(form) ==>
      (r == Err(EmailTaken) <==> exists i :: 0 <= i < |users| && NormalizedEmailOf(users[i]) == NormalizedEmail(form.email))
    ensures (FieldsValid(form) && (forall i :: 0 <= i < |users| ==> NormalizedEmailOf(users[i]) != NormalizedEmail(form.email))
      && Base64.Btoa(form.password).None?) ==> r == Err(PasswordNotEncodable)
    ensures r.Ok? <==> (FieldsValid(form) && Base64.Btoa(form.password).Some?
      && forall i :: 0 <= i < |users| ==> NormalizedEmailOf(users[i]) != NormalizedEmail(form.email))
    ensures r.Ok? ==> r.value == User(now, form.fullname.value, NormalizedEmail(form.email),
      Base64.Btoa(form.password).value, OrEmpty(form.phone), None, isoNow, 0)
  {
    var email := NormalizedEmail(form.email);
    if |OrEmpty(form.fullname)| < 3 then Err(NameTooShort)
    else if !Validators.ValidateEmail(email) then Err(InvalidEmail)
    else if |form.password| < 6 then Err(PasswordTooShort)
    else if Text.Truthy(form.phone) && !Validators.ValidatePhone(form.phone.value) then Err(InvalidPhone)
    else if Seqs.FirstIndex(users, EmailMatches(email)) != -1 then Err(EmailTaken)
    else match Base64.Btoa(form.password)
      case None => Err(PasswordNotEncodable)
      case Some(encoded) => Ok(User(now, form.fullname.value, email, encoded, OrEmpty(form.phone), None, isoNow, 0))
  }

  /** The password `loginUser` compares against: the stored value decoded, or the stored
      value itself when it is not base64. */
  function StoredPassword(u: User): (p: string)
    ensures Base64.Atob(u.password).Some? ==> p == Base64.Atob(u.password).value
    ensures Base64.Atob(u.password).None? ==> p == u.password
  {
    match Base64.Atob(u.password)
    case Some(p) => p
    case None => u.password
  }

  /** `loginUser`: the first user whose email normalises like the given one, if its stored
      password matches. */
  function LoginUser(users: seq<User>, email: Option<string>, password: string): (r: Result<User, LoginError>)
    ensures (forall i :: 0 <= i < |users| ==> NormalizedEmailOf(users[i]) != NormalizedEmail(email)) ==> r.Err?
    ensures r.Ok? ==>
      var k := Seqs.FirstIndex(users, EmailMatches(NormalizedEmail(email)));
      0 <= k < |users| && r.value == users[k] && StoredPassword(r.value) == password
    ensures r.Err? ==> r == Err(InvalidCredentials)
  {
    var k := Seqs.FirstIndex(users, EmailMatches(NormalizedEmail(email)));
    if k == -1 then Err(InvalidCredentials)
    else if StoredPassword(users[k]) != password then Err(InvalidCredentials)
    else Ok(users[k])
  }

  function SignupSession(u: User): Session {
    Session(u.id, u.fullname, u.email, u.phone, u.profilePhoto, None)
  }

  function LoginSession(u: User): Session {
    Session(u.id, u.fullname, u.email, u.phone, u.profilePhoto, Some(u.rentals))
  }

  /** Appending a user whose normalised email no one has keeps emails unique. */
  lemma AppendKeepsEmailsUnique(users: seq<User>, u: User)
    requires UniqueEmails(users)
    requires forall i :: 0 <= i < |users| ==> NormalizedEmailOf(users[i]) != NormalizedEmailOf(u)
    ensures UniqueEmails(users + [u])
  {
    var s := users + [u];
    forall i, j | 0 <= i < j < |s| ensures NormalizedEmailOf(s[i]) != NormalizedEmailOf(s[j]) {
      assert s[i] == users[i];
      if j < |users| {
        assert s[j] == users[j];
      } else {
        assert s[j] == u;
      }
    }
  }

  /** A new account never shares a normalised email with an earlier one. */
  lemma SignupKeepsEmailsUnique(users: seq<User>, form: SignupForm, now: int, isoNow: string)
    requires UniqueEmails(users)
    requires SignupUser(users, form, now, isoNow).Ok?
    ensures UniqueEmails(users + [SignupUser(users, form, now, isoNow).value])
  {
    var u := SignupUser(users, form, now, isoNow).value;
    Text.NormalizeIdempotent(OrEmpty(form.email));
    assert NormalizedEmailOf(u) == NormalizedEmail(form.email);
    AppendKeepsEmailsUnique(users, u);
  }

  /** Whoever has just signed up can log in with the same password and any spelling of
      the email that normalises alike: another case, other surrounding spaces. */
  lemma SignupThenLogin(users: seq<User>, form: SignupForm, now: int, isoNow: string, other: Option<string>)
    requires SignupUser(users, form, now, isoNow).Ok?
    requires NormalizedEmail(other) == NormalizedEmail(form.email)
    ensures var u := SignupUser(users, form, now, isoNow).value;
      LoginUser(users + [u], other, form.password) == Ok(u)
  {
    var u := SignupUser(users, form, now, isoNow).value;
    var e := NormalizedEmail(form.email);
    Text.NormalizeIdempotent(OrEmpty(form.email));
    assert EmailMatches(e)(u);
    Seqs.FirstIndexAppend(users, u, EmailMatches(e));
    Base64.AtobBtoa(form.password);
    assert StoredPassword(u) == form.password;
    assert (users + [u])[|users|] == u;
  }

  /** With unique normalised emails, login succeeds exactly when some user's email
      normalises like the given one and that user's stored password matches. */
  lemma LoginSucceedsIff(users: seq<User>, email: Option<string>, password: string)
    requires UniqueEmails(users)
    ensures LoginUser(users, email, password).Ok? <==>
      exists i :: 0 <= i < |users| && NormalizedEmailOf(users[i]) == NormalizedEmail(email) && StoredPassword(users[i]) == password
  {
    var p := EmailMatches(NormalizedEmail(email));
    if exists i :: 0 <= i < |users| && NormalizedEmailOf(users[i]) == NormalizedEmail(email) && StoredPassword(users[i]) == password {
      var i :| 0 <= i < |users| && NormalizedEmailOf(users[i]) == NormalizedEmail(email) && StoredPassword(users[i]) == password;
      assert p(users[i]);
      assert Seqs.FirstIndex(users, p) == i;
    }
  }

  /** A user whose stored password is not base64 (an account kept from before passwords
      were encoded) still logs in with that stored text, in any spelling of the email. */
  lemma PlainPasswordLogsIn(users: seq<User>, email: Option<string>, i: int)
    requires UniqueEmails(users)
    requires 0 <= i < |users| && Base64.Atob(users[i].password).None?
    requires NormalizedEmail(email) == NormalizedEmailOf(users[i])
    ensures LoginUser(users, email, users[i].password) == Ok(users[i])
  {
    LoginSucceedsIff(users, email, users[i].password);
    var k := Seqs.FirstIndex(users, EmailMatches(NormalizedEmail(email)));
    assert EmailMatches(NormalizedEmail(email))(users[i]);
    assert k == i;
  }

  /** `updateUserInList`: the first user with exactly the record's email is replaced by it;
      when there is none the list is unchanged. */
  function WithUserUpdated(users: seq<User>, u: User): (r: seq<User>)
    ensures |r| == |users|
    ensures (forall i :: 0 <= i < |users| ==> users[i].email != u.email) ==> r == users
    ensures var k := Seqs.FirstIndex(users, EmailIs(u.email));
      k != -1 ==> r[k] == u && forall i :: 0 <= i < |users| && i != k ==> r[i] == users[i]
  {
    var k := Seqs.FirstIndex(users, EmailIs(u.email));
    if k > -1 then users[k := u] else users
  }

  /** Replacing a record by one with the same email keeps normalised emails unique. */
  lemma UpdateUserKeepsEmailsUnique(users: seq<User>, u: User)
    requires UniqueEmails(users)
    ensures UniqueEmails(WithUserUpdated(users, u))
  {
    var k := Seqs.FirstIndex(users, EmailIs(u.email));
    if k != -1 {
      var r := users[k := u];
      assert users[k].email == u.email;
      forall i, j | 0 <= i < j < |r| ensures NormalizedEmailOf(r[i]) != NormalizedEmailOf(r[j]) {
        assert NormalizedEmailOf(r[i]) == NormalizedEmailOf(users[i]);
        assert NormalizedEmailOf(r[j]) == NormalizedEmailOf(users[j]);
      }
    }
  }

  /** Saving the same record twice is saving it once. */
  lemma UpdateUserIdempotent(users: seq<User>, u: User)
    ensures WithUserUpdated(WithUserUpdated(users, u), u) == WithUserUpdated(users, u)
  {
    var k := Seqs.FirstIndex(users, EmailIs(u.email));
    if k != -1 {
      var once := WithUserUpdated(users, u);
      assert forall j :: 0 <= j < k ==> once[j] == users[j] && !EmailIs(u.email)(once[j]);
      assert EmailIs(u.email)(once[k]);
      assert Seqs.FirstIndex(once, EmailIs(u.email)) == k;
    }
  }

  // ---------- Rentals ----------

  /** The record the checkout hands to `saveRental`; only the renter's email matters here,
      the other fields are kept as given. */
  datatype RentalDraft = RentalDraft(userEmail: string, details: map<string, string>)

  datatype Rental = Rental(id: string, userEmail: string, details: map<string, string>, createdAt: string)

  function RentalEmailIsNot(email: string): Rental -> bool { (r: Rental) => r.userEmail != email }

  /** `'RNT' + Date.now()` */
  function RentalId(now: nat): (id: string)
    ensures |id| >= 4 && id[..3] == "RNT"
    ensures forall i :: 3 <= i < |id| ==> Text.IsAsciiDigit(id[i])
    ensures Text.DigitsValue(id[3..]) == now
    ensures id[3] == '0' ==> |id| == 4
  {
    Text.DigitsValueOfNatToString(now);
    assert ("RNT" + Text.NatToString(now))[3..] == Text.NatToString(now);
    "RNT" + Text.NatToString(now)
  }

  /** Rentals saved at different milliseconds get different ids. */
  lemma RentalIdsDiffer(a: nat, b: nat)
    requires a != b
    ensures RentalId(a) != RentalId(b)
  {
  }

  function NewRental(d: RentalDraft, now: nat, isoNow: string): (r: Rental)
    ensures r.id == RentalId(now) && r.userEmail == d.userEmail && r.details == d.details && r.createdAt == isoNow
  {
    Rental(RentalId(now), d.userEmail, d.details, isoNow)
  }

  // ---------- Payments ----------

  datatype PaymentError = MissingDetails | InvalidPinFormat | Declined
  {
    /** The thrown error's message; a declined PIN reads differently from a malformed one. */
    function Message(): (m: string)
      ensures m != ""
    {
      match this
      case MissingDetails => "Missing payment details"
      case InvalidPinFormat => "Invalid PIN format"
      case Declined => "\U{274C} Invalid PIN. Please try again."
    }
  }

  datatype Transaction = Transaction(
    id: string,
    provider: string,
    mobile: string,
    amount: int,
    userEmail: string,
    status: string,
    timestamp: string,
    createdAt: string)

  /** The PIN the mock gateway always declines. */
  const DeclinedPin: string := "0000"

  /** `'TXN' + Math.floor(Math.random() * 900000 + 100000)`, for the draw
      `Math.floor(Math.random() * 900000)`. */
  function TransactionId(draw: nat): (id: string)
    requires draw < 900000
    ensures |id| == 9 && id[..3] == "TXN"
    ensures forall i :: 3 <= i < |id| ==> Text.IsAsciiDigit(id[i])
    ensures Text.DigitsValue(id[3..]) == 100000 + draw
  {
    Text.DigitsValueOfNatToString(100000 + draw);
    assert ("TXN" + Text.NatToString(100000 + draw))[3..] == Text.NatToString(100000 + draw);
    assert Text.Pow10(5) == 100000 && Text.Pow10(6) == 1000000 by {
      assert Text.Pow10(1) == 10;
      assert Text.Pow10(2) == 100;
      assert Text.Pow10(3) == 1000;
      assert Text.Pow10(4) == 10000;
    }
    Text.NatToStringLength(100000 + draw, 6);
    "TXN" + Text.NatToString(100000 + draw)
  }

  /** `processMobilePayment`, as the transaction it would save. Missing provider, mobile or
      PIN is rejected first, then a PIN that is not 4 to 6 digits; "0000" has the right
      format and is declined; anything else succeeds with the mobile number stripped of
      whitespace. `now` is the clock reading for `timestamp`, `savedAt` the later one
      `saveTransaction` takes for `createdAt`. */
  function PaymentOutcome(provider: Option<string>, mobile: Option<string>, pin: Option<string>,
                          amount: int, userEmail: string, draw: nat, now: string, savedAt: string): (r: Result<Transaction, PaymentError>)
    requires draw < 900000
    ensures !Text.Truthy(provider) || !Text.Truthy(mobile) || !Text.Truthy(pin) ==> r == Err(MissingDetails)
    ensures Text.Truthy(provider) && Text.Truthy(mobile) && Text.Truthy(pin) && !Validators.IsPinFormat(pin.value)
      ==> r == Err(InvalidPinFormat)
    ensures Text.Truthy(provider) && Text.Truthy(mobile) && pin == Some(DeclinedPin) ==> r == Err(Declined)
    ensures r.Ok? <==> (Text.Truthy(provider) && Text.Truthy(mobile) && Text.Truthy(pin)
      && Validators.IsPinFormat(pin.value) && pin.value != DeclinedPin)
    ensures r.Ok? ==>
      && r.value.id == TransactionId(draw) && r.value.status == "success"
      && r.value.provider == provider.value && r.value.amount == amount && r.value.userEmail == userEmail
      && r.value.mobile == Text.StripSpaces(mobile.value)
      && (forall i :: 0 <= i < |r.value.mobile| ==> !Text.IsSpace(r.value.mobile[i]))
      && r.value.timestamp == now && r.value.createdAt == savedAt
  {
    if !Text.Truthy(provider) || !Text.Truthy(mobile) || !Text.Truthy(pin) then Err(MissingDetails)
    else if !Validators.IsPinFormat(pin.value) then Err(InvalidPinFormat)
    else if pin.value == DeclinedPin then Err(Declined)
    else Ok(Transaction(TransactionId(draw), provider.value, Text.StripSpaces(mobile.value), amount, userEmail, "success", now, savedAt))
  }

  /** A malformed PIN, a declined PIN and missing details are reported differently. */
  lemma PaymentErrorMessagesDiffer(a: PaymentError, b: PaymentError)
    requires a != b
    ensures a.Message() != b.Message()
  {
  }

  // ---------- Messages ----------

  datatype MessageStatus = Pending | Replied
  {
    /** The stored `status` text. */
    function Name(): (n: string)
      ensures n == "pending" <==> this.Pending?
      ensures n == "replied" <==> this.Replied?
    {
      match this
      case Pending => "pending"
      case Replied => "replied"
    }
  }

  /** A contact message; `details` are the sender's fields, kept as given. */
  datatype Message = Message(
    id: int,
    details: map<string, string>,
    status: MessageStatus,
    createdAt: string,
    response: Option<string>,
    repliedAt: Option<string>)

  function MessageIdIs(id: int): Message -> bool { (m: Message) => m.id == id }

  /** `saveMessage`'s record: id from the clock, status pending, not yet answered. */
  function NewMessage(details: map<string, string>, now: int, isoNow: string): (m: Message)
    ensures m.id == now && m.status == Pending && m.status.Name() == "pending"
    ensures m.details == details && m.createdAt == isoNow && m.response == None && m.repliedAt == None
  {
    Message(now, details, Pending, isoNow, None, None)
  }

  /** `saveMessage`: the new message goes in front of the older ones. */
  function SaveMessage(messages: seq<Message>, m: Message): (r: seq<Message>)
    ensures |r| == |messages| + 1 && r[0] == m && r[1..] == messages
  {
    [m] + messages
  }

  /** `replyToMessage`: false and no change when no message has the id; otherwise the first
      message with the id gets the response, status replied and a reply time, and nothing
      else changes. The earlier status is not looked at. */
  function WithReply(messages: seq<Message>, msgId: int, response: string, isoNow: string): (r: (bool, seq<Message>))
    ensures r.0 <==> exists i :: 0 <= i < |messages| && messages[i].id == msgId
    ensures !r.0 ==> r.1 == messages
    ensures r.0 ==>
      var k := Seqs.FirstIndex(messages, MessageIdIs(msgId));
      && 0 <= k < |messages| && |r.1| == |messages|
      && r.1[k] == messages[k].(response := Some(response), status := Replied, repliedAt := Some(isoNow))
      && forall i :: 0 <= i < |messages| && i != k ==> r.1[i] == messages[i]
  {
    var k := Seqs.FirstIndex(messages, MessageIdIs(msgId));
    if k == -1 then (false, messages)
    else
      assert messages[k].id == msgId;
      (true, messages[k := messages[k].(response := Some(response), status := Replied, repliedAt := Some(isoNow))])
  }

  /** A second reply to the same message overwrites the first. */
  lemma SecondReplyOverwrites(messages: seq<Message>, msgId: int, first: string, second: string, t1: string, t2: string)
    requires WithReply(messages, msgId, first, t1).0
    ensures WithReply(WithReply(messages, msgId, first, t1).1, msgId, second, t2)
      == WithReply(messages, msgId, second, t2)
  {
    var k := Seqs.FirstIndex(messages, MessageIdIs(msgId));
    var once := WithReply(messages, msgId, first, t1).1;
    assert forall j :: 0 <= j < k ==> once[j] == messages[j] && !MessageIdIs(msgId)(once[j]);
    assert MessageIdIs(msgId)(once[k]);
    assert Seqs.FirstIndex(once, MessageIdIs(msgId)) == k;
    assert once[k := once[k].(response := Some(second), status := Replied, repliedAt := Some(t2))]
      == messages[k := messages[k].(response := Some(second), status := Replied, repliedAt := Some(t2))];
  }

  /** Replying by the id of the message just saved answers that message, even when an older
      one was saved in the same millisecond. */
  lemma SaveThenReply(messages: seq<Message>, details: map<string, string>, now: int, isoNow: string, response: string, t: string)
    ensures var m := NewMessage(details, now, isoNow);
      WithReply(SaveMessage(messages, m), now, response, t)
        == (true, [m.(response := Some(response), status := Replied, repliedAt := Some(t))] + messages)
  {
    var m := NewMessage(details, now, isoNow);
    var s := SaveMessage(messages, m);
    assert Seqs.FirstIndex(s, MessageIdIs(now)) == 0;
    assert s[0 := s[0].(response := Some(response), status := Replied, repliedAt := Some(t))]
      == [m.(response := Some(response), status := Replied, repliedAt := Some(t))] + messages;
  }

  // ---------- Deleting a user ----------

  /** The admin's "delete user": every user with exactly that email and every rental made
      with it are dropped; the others stay, in order. */
  function WithoutUser(users: seq<User>, rentals: seq<Rental>, email: string): (r: (seq<User>, seq<Rental>))
    ensures forall i :: 0 <= i < |r.0| ==> r.0[i].email != email && r.0[i] in users
    ensures forall i :: 0 <= i < |users| && users[i].email != email ==> users[i] in r.0
    ensures forall i :: 0 <= i < |r.1| ==> r.1[i].userEmail != email && r.1[i] in rentals
    ensures forall i :: 0 <= i < |rentals| && rentals[i].userEmail != email ==> rentals[i] in r.1
  {
    (Seqs.Filter(users, EmailIsNot(email)), Seqs.Filter(rentals, RentalEmailIsNot(email)))
  }

  /** The cascade works piece by piece, which keeps the survivors in their order, and keeps
      every other user and rental exactly as many times as before. */
  lemma DeleteUserKeepsOthers(u1: seq<User>, u2: seq<User>, r1: seq<Rental>, r2: seq<Rental>, email: string, x: User, y: Rental)
    ensures WithoutUser(u1 + u2, r1 + r2, email).0 == WithoutUser(u1, r1, email).0 + WithoutUser(u2, r2, email).0
    ensures WithoutUser(u1 + u2, r1 + r2, email).1 == WithoutUser(u1, r1, email).1 + WithoutUser(u2, r2, email).1
    ensures multiset(WithoutUser(u1 + u2, r1 + r2, email).0)[x] == if x.email == email then 0 else multiset(u1 + u2)[x]
    ensures multiset(WithoutUser(u1 + u2, r1 + r2, email).1)[y] == if y.userEmail == email then 0 else multiset(r1 + r2)[y]
  {
    Seqs.FilterConcat(u1, u2, EmailIsNot(email));
    Seqs.FilterConcat(r1, r2, RentalEmailIsNot(email));
    Seqs.FilterCount(u1 + u2, EmailIsNot(email), x);
    Seqs.FilterCount(r1 + r2, RentalEmailIsNot(email), y);
  }

  /** Deleting a user keeps the remaining emails unique. */
  lemma DeleteUserKeepsEmailsUnique(users: seq<User>, rentals: seq<Rental>, email: string)
    requires UniqueEmails(users)
    ensures UniqueEmails(WithoutUser(users, rentals, email).0)
  {
    Seqs.FilterKeepsDistinct(users, EmailIsNot(email), NormalizedEmailOf);
  }

  // ---------- The store ----------

  /** The local-storage entries `users`, `rentals`, `transactions`, `messages` and
      `currentUser`. Each method's `modifies` clause names the entries it may write;
      the others keep their values. */
  class LocalStore {
    var users: seq<User>
    var rentals: seq<Rental>
    var transactions: seq<Transaction>
    var messages: seq<Message>
    var currentUser: Option<Session>

    ghost predicate Valid()
      reads this
    {
      UniqueEmails(users)
    }

    /** `seedIfNeeded` on a fresh browser: every list empty, nobody signed in. */
    constructor ()
      ensures Valid()
      ensures users == [] && rentals == [] && transactions == [] && messages == [] && currentUser == None
    {
      users := [];
      rentals := [];
      transactions := [];
      messages := [];
      currentUser := None;
    }

    method UpdateUserInList(u: User)
      requires Valid()
      modifies this`users
      ensures Valid()
      ensures users == WithUserUpdated(old(users), u)
    {
      UpdateUserKeepsEmailsUnique(users, u);
      var idx := Seqs.FirstIndex(users, EmailIs(u.email));
      if idx > -1 {
        users := users[idx := u];
      }
    }

    /** `signupUser`: on success one user is appended and becomes the current user. */
    method Signup(form: SignupForm, now: int, isoNow: string) returns (r: Result<User, SignupError>)
      requires Valid()
      modifies this`users, this`currentUser
      ensures Valid()
      ensures r == SignupUser(old(users), form, now, isoNow)
      ensures (FieldsValid(form) && (forall i :: 0 <= i < |old(users)| ==> NormalizedEmailOf(old(users)[i]) != NormalizedEmail(form.email))
        && Base64.Btoa(form.password).None?) ==> r == Err(PasswordNotEncodable)
      ensures users == (if r.Ok? then old(users) + [r.value] else old(users))
      ensures currentUser == (if r.Ok? then Some(SignupSession(r.value)) else old(currentUser))
    {
      r := SignupUser(users, form, now, isoNow);
      if r.Ok? {
        SignupKeepsEmailsUnique(users, form, now, isoNow);
        users := users + [r.value];
        currentUser := Some(SignupSession(r.value));
      }
    }

    /** `loginUser`: on success the user becomes the current user; the lists stay. */
    method Login(email: Option<string>, password: string) returns (r: Result<User, LoginError>)
      modifies this`currentUser
      ensures r == LoginUser(old(users), email, password)
      ensures currentUser == (if r.Ok? then Some(LoginSession(r.value)) else old(currentUser))
    {
      r := LoginUser(users, email, password);
      if r.Ok? {
        currentUser := Some(LoginSession(r.value));
      }
    }

    /** `saveRental`: one rental appended, with its id and creation time set. */
    method SaveRental(d: RentalDraft, now: nat, isoNow: string) returns (r: Rental)
      modifies this`rentals
      ensures r == NewRental(d, now, isoNow) && rentals == old(rentals) + [r]
    {
      r := NewRental(d, now, isoNow);
      rentals := rentals + [r];
    }

    /** `processMobilePayment` with `saveTransaction`: exactly one transaction is appended
        on success and none otherwise. */
    method ProcessMobilePayment(provider: Option<string>, mobile: Option<string>, pin: Option<string>,
                                amount: int, userEmail: string, draw: nat, now: string, savedAt: string)
      returns (r: Result<Transaction, PaymentError>)
      requires draw < 900000
      modifies this`transactions
      ensures r == PaymentOutcome(provider, mobile, pin, amount, userEmail, draw, now, savedAt)
      ensures transactions == (if r.Ok? then old(transactions) + [r.value] else old(transactions))
    {
      r := PaymentOutcome(provider, mobile, pin, amount, userEmail, draw, now, savedAt);
      if r.Ok? {
        transactions := transactions + [r.value];
      }
    }

    method SaveMessage(details: map<string, string>, now: int, isoNow: string) returns (m: Message)
      modifies this`messages
      ensures m == NewMessage(details, now, isoNow) && messages == [m] + old(messages)
    {
      m := NewMessage(details, now, isoNow);
      messages := [m] + messages;
    }

    method ReplyToMessage(msgId: int, response: string, isoNow: string) returns (found: bool)
      modifies this`messages
      ensures (found, messages) == WithReply(old(messages), msgId, response, isoNow)
    {
      var idx := Seqs.FirstIndex(messages, MessageIdIs(msgId));
      if idx == -1 {
        return false;
      }
      messages := messages[idx := messages[idx].(response := Some(response), status := Replied, repliedAt := Some(isoNow))];
      found := true;
    }

    /** The delete-user click handler: the user's rentals go with the user. */
    method DeleteUser(email: string)
      requires Valid()
      modifies this`users, this`rentals
      ensures Valid()
      ensures (users, rentals) == WithoutUser(old(users), old(rentals), email)
    {
      DeleteUserKeepsEmailsUnique(users, rentals, email);
      users := Seqs.Filter(users, EmailIsNot(email));
      rentals := Seqs.Filter(rentals, RentalEmailIsNot(email));
    }
  }
}
