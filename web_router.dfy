/**
  The route handlers of web/web_router.py that touch the cart, run against the
  store; the registration form and its validator; and the file name an uploaded
  product image is stored under. Each handler's postcondition is the matching
  transition of module CartSpec, where its effects and invariants are proved.
*/
module WebRouter {
  import opened Table
  import opened Models
  import opened Dao
  import opened CartSpec
  import opened Store

  // ---------------------------------------------------------------------------
  // Cart routes
  // ---------------------------------------------------------------------------

  /** GET /cart. */
  method Cart(db: Database, user: Option<User>) returns (reply: Reply)
    requires db.Valid()
    modifies db
    ensures db.Valid()
    ensures (reply, db.State()) == ViewCart(old(db.State()), user)
  {
    if user.None? {
      return Redirect(Index);
    }
    var order := db.GetOrCreateOrder(user.value.id, false, false);
    if order.Err? {
      return Crash(order.failure);
    }
    var cart := FetchOrderProducts(db.lines, order.value.value.id);
    reply := Page(Totals(cart));
  }

  /** POST /cart/increase_quantity/{cartProductId}. */
  method IncreaseProductQuantityInCart(db: Database, user: Option<User>, cartProductId: int) returns (reply: Reply)
    requires db.Valid()
    modifies db
    ensures db.Valid()
    ensures (reply, db.State()) == IncreaseQuantity(old(db.State()), user, cartProductId)
  {
    if user.Some? {
      var order := db.GetOrCreateOrder(user.value.id, false, false);
      if order.Err? {
        return Crash(order.failure);
      }
      var found := GetOrderProduct(db.lines, order.value.value.id, cartProductId);
      if found.ManyRows? {
        return Crash(MultipleResultsFound);
      }
      if found.OneRow? {
        var line := found.row;
        line := line.(quantity := line.quantity + 1);
        db.SaveOrderProduct(line);
      }
    }
    reply := Redirect(CartView);
  }

  /** POST /cart/decrease_quantity/{cartProductId}. */
  method DecreaseProductQuantityInCart(db: Database, user: Option<User>, cartProductId: int) returns (reply: Reply)
    requires db.Valid()
    modifies db
    ensures db.Valid()
    ensures (reply, db.State()) == DecreaseQuantity(old(db.State()), user, cartProductId)
  {
    if user.Some? {
      var order := db.GetOrCreateOrder(user.value.id, false, false);
      if order.Err? {
        return Crash(order.failure);
      }
      var found := GetOrderProduct(db.lines, order.value.value.id, cartProductId);
      if found.ManyRows? {
        return Crash(MultipleResultsFound);
      }
      if found.OneRow? && found.row.quantity > 0 {
        var line := found.row;
        line := line.(quantity := line.quantity - 1);
        if line.quantity == 0 {
          db.DeleteOrderProduct(cartProductId);
        } else {
          db.SaveOrderProduct(line);
        }
      }
    }
    reply := Redirect(CartView);
  }

  /** POST /cart/delete_product_from_cart/{cartProductId}. */
  method DeleteProductInCart(db: Database, user: Option<User>, cartProductId: int) returns (reply: Reply)
    requires db.Valid()
    modifies db
    ensures db.Valid()
    ensures (reply, db.State()) == DeleteLine(old(db.State()), user, cartProductId)
  {
    if user.Some? {
      var order := db.GetOrCreateOrder(user.value.id, false, false);
      if order.Err? {
        return Crash(order.failure);
      }
      var found := GetOrderProduct(db.lines, order.value.value.id, cartProductId);
      if found.ManyRows? {
        return Crash(MultipleResultsFound);
      }
      if found.OneRow? {
        db.DeleteOrderProduct(cartProductId);
      }
    }
    reply := Redirect(CartView);
  }

  /** POST /close-order; notice is the mail handed to the background tasks, if any. */
  method CloseOrder(db: Database, user: Option<User>) returns (reply: Reply, notice: Option<Notice>)
    requires db.Valid()
    modifies db
    ensures db.Valid()
    ensures (reply, db.State(), notice) == CartSpec.CloseOrder(old(db.State()), user)
  {
    notice := None;
    if user.Some? {
      var u := user.value;
      var order := db.GetOrCreateOrder(u.id, false, false);
      if order.Err? {
        return Crash(order.failure), None;
      }
      var o := order.value.value;
      var cart := FetchOrderProducts(db.lines, o.id);
      if cart != [] {
        o := o.(isClosed := true);
        db.SaveOrder(o);
        notice := Some(Notice(u.email, u.name, o, cart));
      }
    }
    reply := Redirect(Index);
  }

  /** POST /shop/add/{productId}. */
  method AddProduct(db: Database, user: Option<User>, productId: int) returns (reply: Reply)
    requires db.Valid()
    modifies db
    ensures db.Valid()
    ensures (reply, db.State()) == AddToCart(old(db.State()), user, productId)
  {
    if user.None? {
      return Redirect(Login);
    }
    var product := GetProduct(db.products, productId);
    if product.ManyRows? {
      return Crash(MultipleResultsFound);
    }
    if product.OneRow? {
      var p := product.row;
      var order := db.GetOrCreateOrder(user.value.id, false, false);
      if order.Err? {
        return Crash(order.failure);
      }
      var found := db.GetOrCreateOrderProduct(order.value.value.id, p.id, false);
      if found.Err? {
        return Crash(found.failure);
      }
      var line := found.value.value;
      line := line.(quantity := line.quantity + 1);
      line := line.(price := p.price);
      db.SaveOrderProduct(line);
    }
    reply := Redirect(Index);
  }

  // ---------------------------------------------------------------------------
  // The registration form
  // ---------------------------------------------------------------------------

  const BadEmailMessage: string := "Please? enter valid email"
  const EmailExistsMessage: string := "User with this email  already exists"
  const BadNameMessage: string := "Please? enter valid name"
  const BadPasswordMessage: string := "Please? enter password at least 8 symbols"
  const MismatchMessage: string := "Confirm password did not match!"

  /** Missing, empty, or without an '@'. */
  predicate BadEmail(email: Option<string>)
  {
    email.None? || '@' !in email.value
  }

  /** get_user_by_email finds a user; a missing email matches no row. */
  predicate EmailTaken(users: seq<User>, email: Option<string>)
  {
    email.Some? && !GetUserByEmail(users, email.value).NoRow?
  }

  /** Missing or shorter than 3 characters. */
  predicate BadName(name: Option<string>)
  {
    name.None? || |name.value| < 3
  }

  /** Missing or shorter than 8 characters. */
  predicate BadPassword(password: Option<string>)
  {
    password.None? || |password.value| < 8
  }

  /** The message of one check: present when the check fails. */
  function Check(failed: bool, message: string): (r: seq<string>)
    ensures forall m :: multiset(r)[m] == if failed && m == message then 1 else 0
  {
    if failed then [message] else []
  }

  /** The messages of the five checks of is_valid, in order, given which of them failed. */
  function Messages(badEmail: bool, taken: bool, badName: bool, badPassword: bool, mismatch: bool): (r: seq<string>)
    ensures |r| == (if badEmail then 1 else 0) + (if taken then 1 else 0) + (if badName then 1 else 0)
      + (if badPassword then 1 else 0) + (if mismatch then 1 else 0)
  {
    Check(badEmail, BadEmailMessage)
    + Check(taken, EmailExistsMessage)
    + Check(badName, BadNameMessage)
    + Check(badPassword, BadPasswordMessage)
    + Check(mismatch, MismatchMessage)
  }

  /** The messages is_valid appends for the given field values. */
  function FormErrors(email: Option<string>, name: Option<string>, password: Option<string>,
                      passwordConfirm: Option<string>, users: seq<User>, checkEmail: bool): (r: seq<string>)
    ensures r == [] <==>
      && !(checkEmail && BadEmail(email)) && !EmailTaken(users, email) && !BadName(name)
      && !BadPassword(password) && password == passwordConfirm
    ensures |r| <= 5
  {
    Messages(checkEmail && BadEmail(email), EmailTaken(users, email), BadName(name), BadPassword(password),
             password != passwordConfirm)
  }

  /** The fields of the registration or profile form, and the errors found in them. */
  class UserCreateForm {
    var errors: seq<string>
    var email: Option<string>
    var name: Option<string>
    var password: Option<string>
    var passwordConfirm: Option<string>
    var avatar: Option<string>

    constructor ()
      ensures errors == [] && email == None && name == None
      ensures password == None && passwordConfirm == None && avatar == Some("")
    {
      errors, email, name, password, passwordConfirm, avatar := [], None, None, None, None, Some("");
    }

    /** load_data: the posted fields; a missing or empty name becomes the empty string. */
    method LoadData(formEmail: Option<string>, formName: Option<string>, formPassword: Option<string>,
                    formPasswordConfirm: Option<string>, formAvatar: Option<string>)
      modifies this`email, this`name, this`password, this`passwordConfirm, this`avatar
      ensures email == formEmail && password == formPassword && passwordConfirm == formPasswordConfirm
      ensures avatar == formAvatar
      ensures name == Some(if formName.Some? then formName.value else "")
    {
      email := formEmail;
      name := if formName.Some? && formName.value != "" then formName else Some("");
      password := formPassword;
      passwordConfirm := formPasswordConfirm;
      avatar := formAvatar;
    }

    /** One check of is_valid: its message is appended when it failed. */
    method Report(failed: bool, message: string)
      modifies this`errors
      ensures errors == old(errors) + Check(failed, message)
    {
      if failed {
        errors := errors + [message];
      }
    }

    /** is_valid: append one message per failing check; valid when no error was ever recorded. */
    method IsValid(db: Database, checkEmail: bool) returns (ok: bool)
      requires db.Valid()
      modifies this`errors
      ensures errors == old(errors) + FormErrors(email, name, password, passwordConfirm, db.users, checkEmail)
      ensures ok <==> errors == []
    {
      ghost var before := errors;
      var users := db.users;
      assert UniqueKeys(users, UserEmail);
      ghost var c1 := Check(checkEmail && BadEmail(email), BadEmailMessage);
      ghost var c2 := Check(EmailTaken(users, email), EmailExistsMessage);
      ghost var c3 := Check(BadName(name), BadNameMessage);
      ghost var c4 := Check(BadPassword(password), BadPasswordMessage);
      ghost var c5 := Check(password != passwordConfirm, MismatchMessage);
      assert FormErrors(email, name, password, passwordConfirm, users, checkEmail) == c1 + c2 + c3 + c4 + c5;
      Report(checkEmail && BadEmail(email), BadEmailMessage);
      var maybeUser := if email.Some? then GetUserByEmail(users, email.value) else NoRow;
      EmailLookup(users, email);
      Report(maybeUser.OneRow?, EmailExistsMessage);
      Report(BadName(name), BadNameMessage);
      Report(BadPassword(password), BadPasswordMessage);
      Report(password != passwordConfirm, MismatchMessage);
      assert errors == before + c1 + c2 + c3 + c4 + c5;
      AppendFive(before, c1, c2, c3, c4, c5);
      ok := errors == [];
    }
  }

  /** Appending five pieces one at a time is appending them together. */
  lemma AppendFive<T>(s: seq<T>, a: seq<T>, b: seq<T>, c: seq<T>, d: seq<T>, e: seq<T>)
    ensures s + a + b + c + d + e == s + (a + b + c + d + e)
  {
  }

  /** No message means every check passed, and the other way round. */
  lemma MessagesEmptyIff(badEmail: bool, taken: bool, badName: bool, badPassword: bool, mismatch: bool)
    ensures Messages(badEmail, taken, badName, badPassword, mismatch) == [] <==>
      !badEmail && !taken && !badName && !badPassword && !mismatch
  {
    var errs := Messages(badEmail, taken, badName, badPassword, mismatch);
    MessagesCount(badEmail, taken, badName, badPassword, mismatch, BadEmailMessage);
    MessagesCount(badEmail, taken, badName, badPassword, mismatch, EmailExistsMessage);
    MessagesCount(badEmail, taken, badName, badPassword, mismatch, BadNameMessage);
    MessagesCount(badEmail, taken, badName, badPassword, mismatch, BadPasswordMessage);
    MessagesCount(badEmail, taken, badName, badPassword, mismatch, MismatchMessage);
    assert errs == [] <==> multiset(errs) == multiset{};
  }

  /** Each check contributes its own message exactly once when it fails and never otherwise. */
  lemma MessagesEach(badEmail: bool, taken: bool, badName: bool, badPassword: bool, mismatch: bool)
    ensures var errs := multiset(Messages(badEmail, taken, badName, badPassword, mismatch));
      && errs[BadEmailMessage] == (if badEmail then 1 else 0)
      && errs[EmailExistsMessage] == (if taken then 1 else 0)
      && errs[BadNameMessage] == (if badName then 1 else 0)
      && errs[BadPasswordMessage] == (if badPassword then 1 else 0)
      && errs[MismatchMessage] == (if mismatch then 1 else 0)
  {
    MessagesDistinct();
    MessagesCount(badEmail, taken, badName, badPassword, mismatch, BadEmailMessage);
    MessagesCount(badEmail, taken, badName, badPassword, mismatch, EmailExistsMessage);
    MessagesCount(badEmail, taken, badName, badPassword, mismatch, BadNameMessage);
    MessagesCount(badEmail, taken, badName, badPassword, mismatch, BadPasswordMessage);
    MessagesCount(badEmail, taken, badName, badPassword, mismatch, MismatchMessage);
  }

  /** No two of the messages are alike. */
  lemma MessagesDistinct()
    ensures BadEmailMessage != EmailExistsMessage && BadEmailMessage != BadNameMessage
    ensures BadEmailMessage != BadPasswordMessage && BadEmailMessage != MismatchMessage
    ensures EmailExistsMessage != BadNameMessage && EmailExistsMessage != BadPasswordMessage
    ensures EmailExistsMessage != MismatchMessage && BadNameMessage != BadPasswordMessage
    ensures BadNameMessage != MismatchMessage && BadPasswordMessage != MismatchMessage
  {
    assert |BadEmailMessage| == 25 && |EmailExistsMessage| == 36 && |BadNameMessage| == 24;
    assert |BadPasswordMessage| == 41 && |MismatchMessage| == 31;
  }

  /** The count of a message in the errors, check by check. */
  lemma MessagesCount(badEmail: bool, taken: bool, badName: bool, badPassword: bool, mismatch: bool, m: string)
    ensures multiset(Messages(badEmail, taken, badName, badPassword, mismatch))[m] ==
      multiset(Check(badEmail, BadEmailMessage))[m]
      + multiset(Check(taken, EmailExistsMessage))[m]
      + multiset(Check(badName, BadNameMessage))[m]
      + multiset(Check(badPassword, BadPasswordMessage))[m]
      + multiset(Check(mismatch, MismatchMessage))[m]
  {
  }

  /** The messages present are exactly those of the failing checks. */
  lemma MessagesMembers(badEmail: bool, taken: bool, badName: bool, badPassword: bool, mismatch: bool)
    ensures var errs := Messages(badEmail, taken, badName, badPassword, mismatch);
      && (BadEmailMessage in errs <==> badEmail)
      && (EmailExistsMessage in errs <==> taken)
      && (BadNameMessage in errs <==> badName)
      && (BadPasswordMessage in errs <==> badPassword)
      && (MismatchMessage in errs <==> mismatch)
      && forall m :: m in errs ==>
           m in [BadEmailMessage, EmailExistsMessage, BadNameMessage, BadPasswordMessage, MismatchMessage]
  {
    var errs := Messages(badEmail, taken, badName, badPassword, mismatch);
    MessagesEach(badEmail, taken, badName, badPassword, mismatch);
    assert forall m :: m in errs <==> multiset(errs)[m] > 0;
    forall m | m in errs
      ensures m in [BadEmailMessage, EmailExistsMessage, BadNameMessage, BadPasswordMessage, MismatchMessage]
    {
      MessagesCount(badEmail, taken, badName, badPassword, mismatch, m);
    }
  }

  /** Without check_email only the format check is dropped: the taken-email check still runs. */
  lemma FormErrorsWithoutEmailCheck(email: Option<string>, name: Option<string>, password: Option<string>,
                                    passwordConfirm: Option<string>, users: seq<User>)
    ensures FormErrors(email, name, password, passwordConfirm, users, true) ==
      (if BadEmail(email) then [BadEmailMessage] else []) + FormErrors(email, name, password, passwordConfirm, users, false)
    ensures EmailTaken(users, email) ==> EmailExistsMessage in FormErrors(email, name, password, passwordConfirm, users, false)
  {
    var taken, badName, badPassword, mismatch :=
      EmailTaken(users, email), BadName(name), BadPassword(password), password != passwordConfirm;
    MessagesDropFirst(BadEmail(email), taken, badName, badPassword, mismatch);
    MessagesMembers(false, taken, badName, badPassword, mismatch);
  }

  /** The first check's message, if any, comes before all the others. */
  lemma MessagesDropFirst(badEmail: bool, taken: bool, badName: bool, badPassword: bool, mismatch: bool)
    ensures Messages(badEmail, taken, badName, badPassword, mismatch) ==
      Check(badEmail, BadEmailMessage) + Messages(false, taken, badName, badPassword, mismatch)
  {
    var c2, c3, c4, c5 := Check(taken, EmailExistsMessage), Check(badName, BadNameMessage),
      Check(badPassword, BadPasswordMessage), Check(mismatch, MismatchMessage);
    assert Messages(false, taken, badName, badPassword, mismatch) == c2 + c3 + c4 + c5;
    AppendFive(Check(badEmail, BadEmailMessage), [], c2, c3, c4, c5);
  }

  /** With unique emails, the lookup is_valid makes finds a row exactly when the email is taken. */
  lemma EmailLookup(users: seq<User>, email: Option<string>)
    requires UniqueKeys(users, UserEmail)
    ensures (if email.Some? then GetUserByEmail(users, email.value) else NoRow).OneRow? == EmailTaken(users, email)
  {
  }

  /** A taken email is one some user already has. */
  lemma EmailTakenIff(users: seq<User>, email: string)
    ensures EmailTaken(users, Some(email)) <==> exists u :: u in users && u.email == email
  {
  }

  // ---------------------------------------------------------------------------
  // Uploaded product images
  // ---------------------------------------------------------------------------

  /** The last '.'-separated segment of s, as s.split(".")[-1]. */
  function LastSegment(s: string): (r: string)
    ensures '.' !in r
    ensures |r| <= |s| && s[|s| - |r|..] == r
    ensures |r| == |s| || s[|s| - |r| - 1] == '.'
  {
    if s == [] then []
    else if s[|s| - 1] == '.' then []
    else LastSegment(s[..|s| - 1]) + [s[|s| - 1]]
  }

  /** The text after the last dot: any dot-free suffix preceded by a dot (or whole) is it. */
  lemma {:induction false} LastSegmentUnique(s: string, r: string)
    requires '.' !in r && |r| <= |s| && s[|s| - |r|..] == r
    requires |r| == |s| || s[|s| - |r| - 1] == '.'
    ensures LastSegment(s) == r
  {
    var l := LastSegment(s);
    SegmentsSameLength(s, l, r);
  }

  /** Two dot-free suffixes of s that each follow a dot (or are all of s) have the same length. */
  lemma {:induction false} SegmentsSameLength(s: string, a: string, b: string)
    requires '.' !in a && |a| <= |s| && s[|s| - |a|..] == a
    requires |a| == |s| || s[|s| - |a| - 1] == '.'
    requires '.' !in b && |b| <= |s| && s[|s| - |b|..] == b
    requires |b| == |s| || s[|s| - |b| - 1] == '.'
    ensures a == b
  {
    DotFreeSuffixes(s, a, b);
    DotFreeSuffixes(s, b, a);
  }

  /** A dot-free suffix b of s has no dot in front of any shorter suffix a. */
  lemma {:induction false} DotFreeSuffixes(s: string, a: string, b: string)
    requires |a| <= |s| && s[|s| - |a|..] == a
    requires '.' !in b && |b| <= |s| && s[|s| - |b|..] == b
    ensures |a| < |b| ==> s[|s| - |a| - 1] != '.'
  {
    if |a| < |b| {
      assert s[|s| - |a| - 1] == b[|b| - |a| - 1];
      assert b[|b| - |a| - 1] in b;
    }
  }

  /** The segment after the last dot of name.ext is ext. */
  lemma LastSegmentAfterDot(stem: string, ext: string)
    requires '.' !in ext
    ensures LastSegment(stem + "." + ext) == ext
  {
    var s := stem + "." + ext;
    assert s[|s| - |ext|..] == ext;
    assert s[|s| - |ext| - 1] == '.';
    LastSegmentUnique(s, ext);
  }

  const AllowedExtensions: set<string> := {"jpg", "png", "jpeg"}

  /** The name add_product_post stores an upload under: token.ext for an allowed extension, else empty. */
  function SavedFileName(upload: Option<string>, token: string): (r: string)
    ensures r != "" <==> upload.Some? && LastSegment(upload.value) in AllowedExtensions
    ensures r != "" ==>
      && |r| > |token| && r[..|token|] == token && r[|token|] == '.'
      && r[|token| + 1..] == LastSegment(upload.value) && r[|token| + 1..] in AllowedExtensions
  {
    if upload.Some? && LastSegment(upload.value) in AllowedExtensions then
      var ext := LastSegment(upload.value);
      var name := token + "." + ext;
      assert name[..|token|] == token && name[|token|] == '.' && name[|token| + 1..] == ext;
      name
    else ""
  }

  /**
    The stored name is empty unless a file came with an allowed extension; then it
    is the token and that extension, and the extension is read back from it.
  */
  lemma SavedFileNameSpec(upload: Option<string>, token: string)
    requires '.' !in token
    ensures SavedFileName(upload, token) != "" <==> upload.Some? && LastSegment(upload.value) in AllowedExtensions
    ensures SavedFileName(upload, token) != "" ==>
      && SavedFileName(upload, token) == token + "." + LastSegment(upload.value)
      && LastSegment(SavedFileName(upload, token)) == LastSegment(upload.value)
      && LastSegment(SavedFileName(upload, token)) in AllowedExtensions
  {
    if upload.Some? && LastSegment(upload.value) in AllowedExtensions {
      LastSegmentAfterDot(token, LastSegment(upload.value));
    }
  }

  /** Two of the cases: a.b.png is stored under its last extension, png, and no upload stores nothing. */
  lemma SavedFileNameExamples(token: string)
    requires '.' !in token
    ensures SavedFileName(Some("a.b.png"), token) == token + ".png"
    ensures SavedFileName(None, token) == ""
  {
    LastSegmentAfterDot("a.b", "png");
    assert "a.b" + "." + "png" == "a.b.png";
  }

  /** The extension check is case-sensitive: an upper-case extension is refused. */
  lemma SavedFileNameUpperCase(token: string)
    ensures SavedFileName(Some("photo.JPG"), token) == ""
  {
    LastSegmentAfterDot("photo", "JPG");
    assert "photo" + "." + "JPG" == "photo.JPG";
  }
}
