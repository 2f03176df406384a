/** `bookData`: the book store, a list of book records, with ISBN formatting,
    the ISBN-13 check-digit test and the order-preserving filters and sorts. */
module Books {
  import opened Wrappers
  import opened PyText
  import opened Sequences
  import Helpers

  /** One book dictionary with its 'ISBN' (a number or a string), 'Title',
      'Author' and 'Price' keys; the price is held in integer pence. */
  datatype Book = Book(isbn: Value, title: string, author: string, price: int)

  /** `book[name]`; None where the dictionary has no such key. */
  function Field(b: Book, name: string): Option<Value> {
    if name == "ISBN" then Some(b.isbn)
    else if name == "Title" then Some(Str(b.title))
    else if name == "Author" then Some(Str(b.author))
    else if name == "Price" then Some(Num(b.price))
    else None
  }

  /** The key function `lambda x: x[name]` of the sort. */
  function SortKey(name: string): Book -> Value {
    b => match Field(b, name) case Some(v) => v case None => Num(0)
  }

  // ---------------------------------------------------------------------
  // toISBN

  const HyphenIndices: seq<int> := [3, 5, 9, 15]

  /** `add_hyphen` applied at each index in turn; the first failure is raised. */
  function InsertHyphens(s: string, indices: seq<int>): Result<string> {
    if indices == [] then Ok(s)
    else
      var t :- InsertHyphens(s, indices[..|indices| - 1]);
      Helpers.AddHyphen(t, indices[|indices| - 1])
  }

  /** Deletes the four hyphen positions of a formatted ISBN. */
  function Unhyphenate(t: string): string
    requires |t| >= 16
  {
    t[..3] + t[4..5] + t[6..9] + t[10..15] + t[16..]
  }

  /** The formatted ISBN: hyphens after digits 3, 4, 7 and 12 of the input. */
  function Hyphenated(s: string): (t: string)
    requires |s| >= 13
    ensures |t| == |s| + 4
    ensures t[3] == '-' && t[5] == '-' && t[9] == '-' && t[15] == '-'
    ensures Unhyphenate(t) == s
  {
    var t := s[..3] + "-" + s[3..4] + "-" + s[4..7] + "-" + s[7..12] + "-" + s[12..];
    assert t[..3] == s[..3] && t[4..5] == s[3..4] && t[6..9] == s[4..7];
    assert t[10..15] == s[7..12] && t[16..] == s[12..];
    assert s == s[..3] + s[3..4] + s[4..7] + s[7..12] + s[12..];
    t
  }

  lemma HyphenAt(p: string, q: string)
    requires q != []
    ensures Helpers.AddHyphen(p + q, |p|) == Ok(p + "-" + q)
  {
    assert (p + q)[..|p|] == p && (p + q)[|p|..] == q;
  }

  lemma {:induction false} InsertHyphensPrefix(s: string, indices: seq<int>, k: nat)
    requires 0 < k <= |indices|
    ensures InsertHyphens(s, indices[..k]) == (
      var t :- InsertHyphens(s, indices[..k - 1]);
      Helpers.AddHyphen(t, indices[k - 1]))
  {
    assert indices[..k][..k - 1] == indices[..k - 1];
  }

  /** One more insertion: a hyphen goes in before the second piece. */
  lemma InsertHyphensNext(s: string, ix: seq<int>, k: nat, p: string, q: string)
    requires 0 < k <= |ix| && q != [] && ix[k - 1] == |p|
    requires InsertHyphens(s, ix[..k - 1]) == Ok(p + q)
    ensures InsertHyphens(s, ix[..k]) == Ok(p + "-" + q)
  {
    InsertHyphensPrefix(s, ix, k);
    HyphenAt(p, q);
  }

  /** The same step, when the text after the previous hyphen is split into
      the part that stays before the new hyphen and the rest. */
  lemma InsertHyphensAfter(s: string, ix: seq<int>, k: nat, p: string, q: string, b: string, rest: string)
    requires 0 < k <= |ix| && rest != [] && ix[k - 1] == |p| + |b|
    requires q == b + rest
    requires InsertHyphens(s, ix[..k - 1]) == Ok(p + q)
    ensures InsertHyphens(s, ix[..k]) == Ok(p + b + "-" + rest)
  {
    assert p + (b + rest) == (p + b) + rest;
    InsertHyphensNext(s, ix, k, p + b, rest);
  }

  /** The four insertions on a string cut into pieces of 3, 1, 3 and 5
      characters and a non-empty rest. */
  lemma InsertHyphensPieces(s: string, a: string, b: string, c: string, d: string, e: string)
    requires |a| == 3 && |b| == 1 && |c| == 3 && |d| == 5 && e != []
    requires s == a + (b + (c + (d + e)))
    ensures InsertHyphens(s, HyphenIndices) == Ok(a + "-" + b + "-" + c + "-" + d + "-" + e)
  {
    var ix := HyphenIndices;
    assert ix[..0] == [];
    InsertHyphensNext(s, ix, 1, a, b + (c + (d + e)));
    InsertHyphensAfter(s, ix, 2, a + "-", b + (c + (d + e)), b, c + (d + e));
    InsertHyphensAfter(s, ix, 3, a + "-" + b + "-", c + (d + e), c, d + e);
    InsertHyphensAfter(s, ix, 4, a + "-" + b + "-" + c + "-", d + e, d, e);
    assert ix[..4] == ix;
  }

  lemma IsbnCut(s: string)
    requires |s| >= 13
    ensures s == s[..3] + (s[3..4] + (s[4..7] + (s[7..12] + s[12..])))
  {
    assert s[7..] == s[7..12] + s[12..];
    assert s[4..] == s[4..7] + s[7..];
    assert s[3..] == s[3..4] + s[4..];
    assert s == s[..3] + s[3..];
  }

  lemma InsertHyphensLong(s: string)
    requires |s| >= 13
    ensures InsertHyphens(s, HyphenIndices) == Ok(Hyphenated(s))
  {
    IsbnCut(s);
    InsertHyphensPieces(s, s[..3], s[3..4], s[4..7], s[7..12], s[12..]);
  }

  lemma InsertHyphensShort(s: string)
    requires |s| < 13
    ensures InsertHyphens(s, HyphenIndices) == Err(ValueError)
  {
    var ix := HyphenIndices;
    assert ix[..0] == [] && ix[..4] == ix;
    InsertHyphensPrefix(s, ix, 1);
    InsertHyphensPrefix(s, ix, 2);
    InsertHyphensPrefix(s, ix, 3);
    InsertHyphensPrefix(s, ix, 4);
    if |s| > 3 {
      var t1 := Helpers.AddHyphen(s, 3).value;
      if |t1| > 5 {
        var t2 := Helpers.AddHyphen(t1, 5).value;
        if |t2| > 9 {
          var t3 := Helpers.AddHyphen(t2, 9).value;
          assert |t3| == |s| + 3 <= 15;
        }
      }
    }
  }

  /** The four insertions succeed exactly on strings of at least 13
      characters, and then give the formatted ISBN. */
  lemma InsertHyphensIsbn(s: string)
    ensures InsertHyphens(s, HyphenIndices) == if |s| < 13 then Err(ValueError) else Ok(Hyphenated(s))
  {
    if |s| >= 13 {
      InsertHyphensLong(s);
    } else {
      InsertHyphensShort(s);
    }
  }

  /** `toISBN(isbn)`: `str(isbn)` with hyphens inserted at 3, 5, 9 and 15. */
  method ToIsbn(isbn: Value) returns (r: Result<string>)
    ensures r == InsertHyphens(ValueToStr(isbn), HyphenIndices)
    ensures r.Err? <==> |ValueToStr(isbn)| < 13
    ensures r.Err? ==> r.error == ValueError
    ensures r.Ok? ==> r.value == Hyphenated(ValueToStr(isbn))
  {
    var s := ValueToStr(isbn);
    var indices := HyphenIndices;
    var newIsbn := s;
    for k := 0 to |indices|
      invariant InsertHyphens(s, indices[..k]) == Ok(newIsbn)
    {
      assert indices[..k + 1][..k] == indices[..k];
      var next := Helpers.AddHyphen(newIsbn, indices[k]);
      if next.Err? {
        InsertHyphensFailed(s, indices, k + 1);
        InsertHyphensIsbn(s);
        return next;
      }
      newIsbn := next.value;
    }
    assert indices[..|indices|] == indices;
    InsertHyphensIsbn(s);
    return Ok(newIsbn);
  }

  /** Once an insertion fails, the later ones do not run. */
  lemma {:induction false} InsertHyphensFailed(s: string, indices: seq<int>, k: nat)
    requires k <= |indices| && InsertHyphens(s, indices[..k]).Err?
    ensures InsertHyphens(s, indices) == InsertHyphens(s, indices[..k])
    decreases |indices| - k
  {
    if k < |indices| {
      assert indices[..k + 1][..k] == indices[..k];
      InsertHyphensFailed(s, indices, k + 1);
    } else {
      assert indices[..k] == indices;
    }
  }

  // ---------------------------------------------------------------------
  // valid

  /** A 13-character string of decimal digits. */
  predicate WellFormedIsbn(s: string) {
    |s| == 13 && IsDigits(s)
  }

  /** Digits at even positions weigh 1, those at odd positions 3. */
  function Weight(i: int): int {
    if i % 2 == 1 then 3 else 1
  }

  /** The weighted sum of the first `n` digits. */
  function WeightedSum(s: string, n: nat): (sum: int)
    requires n <= |s| && IsDigits(s)
    ensures 0 <= sum <= 27 * n
  {
    if n == 0 then 0 else WeightedSum(s, n - 1) + Weight(n - 1) * DigitValue(s[n - 1])
  }

  /** The test `valid` performs: the last digit must equal `10 - sum % 10`
      without a final `% 10`, so a check digit of 0 never passes. */
  predicate PassesCheck(s: string)
    requires WellFormedIsbn(s)
  {
    DigitValue(s[12]) == 10 - WeightedSum(s, 12) % 10
  }

  /** The ISO 2108 rule: the weighted sum of all 13 digits is a multiple of 10. */
  predicate IsoValid(s: string)
    requires WellFormedIsbn(s)
  {
    WeightedSum(s, 13) % 10 == 0
  }

  /** `valid` accepts exactly the ISO-valid ISBNs whose check digit is not 0. */
  lemma PassesCheckIsoValid(s: string)
    requires WellFormedIsbn(s)
    ensures PassesCheck(s) <==> IsoValid(s) && WeightedSum(s, 12) % 10 != 0
  {
    assert WeightedSum(s, 13) == WeightedSum(s, 12) + DigitValue(s[12]);
    CheckDigitArith(WeightedSum(s, 12), DigitValue(s[12]));
  }

  /** The arithmetic behind it: for a digit `d`, `d == 10 - sum % 10` holds
      exactly when `sum + d` is a multiple of 10 and `sum` is not. */
  lemma CheckDigitArith(sum: int, d: int)
    requires 0 <= sum && 0 <= d <= 9
    ensures d == 10 - sum % 10 <==> (sum + d) % 10 == 0 && sum % 10 != 0
  {
    var m := sum % 10;
    assert sum == (sum / 10) * 10 + m;
    assert sum + d == (sum / 10) * 10 + (m + d);
    if m + d < 10 {
      assert (sum + d) % 10 == m + d;
    } else {
      assert (sum + d) % 10 == m + d - 10;
    }
  }

  /** An ISO-valid ISBN that `valid` rejects: its weighted sum is 40. */
  lemma ValidRejectsZeroCheckDigit()
    ensures WellFormedIsbn("9780000000200")
    ensures IsoValid("9780000000200") && !PassesCheck("9780000000200")
  {
    var s := "9780000000200";
    assert WeightedSum(s, 1) == 9;
    assert WeightedSum(s, 2) == 30;
    assert WeightedSum(s, 3) == 38;
    assert WeightedSum(s, 10) == 38 by {
      assert WeightedSum(s, 4) == 38 && WeightedSum(s, 5) == 38 && WeightedSum(s, 6) == 38;
      assert WeightedSum(s, 7) == 38 && WeightedSum(s, 8) == 38 && WeightedSum(s, 9) == 38;
    }
    assert WeightedSum(s, 11) == 40;
    assert WeightedSum(s, 12) == 40;
    assert WeightedSum(s, 13) == 40;
  }

  /** The test as the ISBN-13 rule states it, with the final `% 10` that
      maps a remainder of 0 to the check digit 0. */
  predicate PassesCheckFixed(s: string)
    requires WellFormedIsbn(s)
  {
    DigitValue(s[12]) == (10 - WeightedSum(s, 12) % 10) % 10
  }

  /** The corrected test accepts exactly the ISO-valid ISBNs. */
  lemma PassesCheckFixedIsoValid(s: string)
    requires WellFormedIsbn(s)
    ensures PassesCheckFixed(s) <==> IsoValid(s)
  {
    assert WeightedSum(s, 13) == WeightedSum(s, 12) + DigitValue(s[12]);
    CheckDigitFixedArith(WeightedSum(s, 12), DigitValue(s[12]));
  }

  lemma CheckDigitFixedArith(sum: int, d: int)
    requires 0 <= sum && 0 <= d <= 9
    ensures d == (10 - sum % 10) % 10 <==> (sum + d) % 10 == 0
  {
    var m := sum % 10;
    assert sum == (sum / 10) * 10 + m;
    assert sum + d == (sum / 10) * 10 + (m + d);
    if m + d < 10 {
      assert (sum + d) % 10 == m + d;
    } else {
      assert (sum + d) % 10 == m + d - 10;
    }
  }

  /** `valid(isbn)` */
  method Valid(isbn: Value) returns (r: Result<bool>)
    ensures r.Err? <==> !WellFormedIsbn(ValueToStr(isbn))
    ensures r.Err? ==> r.error == ValueError
    ensures r.Ok? ==> (r.value <==> PassesCheck(ValueToStr(isbn)))
  {
    var s := ValueToStr(isbn);
    if !IsDigits(s) || |s| != 13 {
      return Err(ValueError);
    }
    var digits := seq(13, i requires 0 <= i < 13 => DigitValue(s[i]));
    var products: seq<int> := [];
    var cumulativeSum := 0;
    for i := 0 to 12
      invariant |products| == i
      invariant forall k :: 0 <= k < i ==> products[k] == Weight(k) * digits[k]
      invariant cumulativeSum == WeightedSum(s, i)
    {
      if i % 2 == 1 {
        products := products + [digits[i] * 3];
      } else {
        products := products + [digits[i]];
      }
      cumulativeSum := cumulativeSum + products[i];
    }
    var checkDigit := 10 - cumulativeSum % 10;
    return Ok(digits[12] == checkDigit);
  }

  /** A book whose ISBN `valid` accepts without raising. */
  predicate HasWellFormedIsbn(b: Book) {
    WellFormedIsbn(ValueToStr(b.isbn))
  }

  /** A book whose ISBN passes `valid`. */
  predicate HasValidIsbn(b: Book) {
    var s := ValueToStr(b.isbn);
    WellFormedIsbn(s) && PassesCheck(s)
  }

  /** One step of `validateISBNs`: a well-formed ISBN at position `k` is kept
      exactly when it passes `valid`. */
  lemma ValidateStep(all: seq<Book>, k: nat, valid: seq<Book>, ok: bool)
    requires k < |all| && valid == Keep(all[..k], HasValidIsbn)
    requires WellFormedIsbn(ValueToStr(all[k].isbn))
    requires ok <==> PassesCheck(ValueToStr(all[k].isbn))
    ensures (if ok then valid + [all[k]] else valid) == Keep(all[..k + 1], HasValidIsbn)
  {
    KeepStep(all, k, valid, HasValidIsbn, ok);
  }

  lemma WellFormedPrefix(all: seq<Book>, k: nat)
    requires k < |all| && HasWellFormedIsbn(all[k])
    requires forall i :: 0 <= i < k ==> HasWellFormedIsbn(all[i])
    ensures forall i :: 0 <= i < k + 1 ==> HasWellFormedIsbn(all[i])
  {
  }

  lemma ValidateDone(all: seq<Book>, valid: seq<Book>)
    requires valid == Keep(all[..|all|], HasValidIsbn)
    ensures valid == Keep(all, HasValidIsbn)
    ensures exists idx :: (SelectsAt(valid, all, idx)
                           && forall i :: 0 <= i < |all| ==> (i in idx <==> HasValidIsbn(all[i])))
  {
    assert all[..|all|] == all;
    KeepSelects(all, HasValidIsbn);
  }

  /** The sort names `printAllBooksSorted` accepts, in lower case. */
  predicate SortName(lower: string) {
    lower == "price" || lower == "title" || lower == "author"
  }

  /** The keys of a book dictionary that can be sorted on. */
  predicate KeyName(k: string) {
    k == "Price" || k == "Title" || k == "Author"
  }

  lemma KeyNameInitial(k: string)
    ensures KeyName(k) ==> k != [] && (k[0] == 'P' || k[0] == 'T' || k[0] == 'A')
  {
  }

  /** The dictionary key of a lower-cased sort name. */
  function CanonicalKey(lower: string): (k: string)
    ensures SortName(lower) ==> KeyName(k) && Lower(k) == lower
  {
    LowerKeys();
    if lower == "price" then "Price" else if lower == "title" then "Title" else "Author"
  }

  // ---------------------------------------------------------------------
  // The store

  class BookData {
    var books: seq<Book>

    constructor(books: seq<Book>)
      ensures this.books == books
    {
      this.books := books;
    }

    /** `validateISBNs()`: keeps the books whose ISBN passes `valid`, in
        order. A malformed ISBN raises from `valid` before `self.books` is
        reassigned, so the store is then unchanged. */
    method ValidateIsbns() returns (r: Result<()>)
      modifies this
      ensures r.Err? <==> exists i :: 0 <= i < |old(books)| && !HasWellFormedIsbn(old(books)[i])
      ensures r.Err? ==> r.error == ValueError && books == old(books)
      ensures r.Ok? ==> books == Keep(old(books), HasValidIsbn)
      ensures r.Ok? ==> exists idx :: (SelectsAt(books, old(books), idx)
                                       && forall i :: 0 <= i < |old(books)| ==> (i in idx <==> HasValidIsbn(old(books)[i])))
    {
      var all := books;
      var valid: seq<Book> := [];
      for k := 0 to |all|
        invariant books == all
        invariant valid == Keep(all[..k], HasValidIsbn)
        invariant forall i :: 0 <= i < k ==> HasWellFormedIsbn(all[i])
      {
        var ok := Valid(all[k].isbn);
        if ok.Err? {
          return Err(ok.error);
        }
        assert HasWellFormedIsbn(all[k]);
        WellFormedPrefix(all, k);
        ValidateStep(all, k, valid, ok.value);
        if ok.value {
          valid := valid + [all[k]];
        }
      }
      ValidateDone(all, valid);
      books := valid;
      return Ok(());
    }

    /** `printByTitle(title)`: the books whose title contains `title`,
        ignoring case, in their original order. */
    function ByTitle(title: string): (r: seq<Book>)
      reads this
      ensures exists idx :: (SelectsAt(r, books, idx)
                             && forall i :: 0 <= i < |books| ==> (i in idx <==> ContainsIgnoringCase(books[i].title, title)))
    {
      var f := (b: Book) => ContainsIgnoringCase(b.title, title);
      KeepSelects(books, f);
      Keep(books, f)
    }

    /** `printByAuthor(author)`: the books whose author contains `author`,
        ignoring case, in their original order. */
    function ByAuthor(author: string): (r: seq<Book>)
      reads this
      ensures exists idx :: (SelectsAt(r, books, idx)
                             && forall i :: 0 <= i < |books| ==> (i in idx <==> ContainsIgnoringCase(books[i].author, author)))
    {
      var f := (b: Book) => ContainsIgnoringCase(b.author, author);
      KeepSelects(books, f);
      Keep(books, f)
    }

    /** `printOverPrice(price)`: the books dearer than `price`, in order. */
    function OverPrice(price: int): (r: seq<Book>)
      reads this
      ensures exists idx :: (SelectsAt(r, books, idx)
                             && forall i :: 0 <= i < |books| ==> (i in idx <==> books[i].price > price))
    {
      var f := (b: Book) => b.price > price;
      KeepSelects(books, f);
      Keep(books, f)
    }

    /** `printAllBooksSorted(sortedBy, reverse_param, limit=limit)`: the name
        is checked in lower case, but the key is looked up as given, so a
        name such as "price" raises KeyError once there is a book to sort. */
    function AllBooksSorted(sortedBy: string, reverse: bool, limit: Option<int>): (r: Result<seq<Book>>)
      reads this
      ensures r.Err? <==> (|| !SortName(Lower(sortedBy))
                           || (books != [] && !KeyName(sortedBy)))
      ensures !SortName(Lower(sortedBy)) ==> r == Err(ValueError)
      ensures r.Err? && SortName(Lower(sortedBy)) ==> r.error == KeyError
      ensures r.Ok? ==> r.value == TakeAtMost(SortBy(books, SortKey(sortedBy), reverse), limit)
      ensures r.Ok? ==> forall i, j :: 0 <= i < j < |r.value| ==>
        !Precedes(SortKey(sortedBy)(r.value[j]), SortKey(sortedBy)(r.value[i]), reverse)
      ensures r.Ok? ==> multiset(r.value) <= multiset(books)
      ensures r.Ok? && limit.None? ==> multiset(r.value) == multiset(books)
    {
      if !SortName(Lower(sortedBy)) then Err(ValueError)
      else if books != [] && !KeyName(sortedBy) then Err(KeyError)
      else
        SortedPrefix(books, SortKey(sortedBy), reverse, limit);
        Ok(TakeAtMost(SortBy(books, SortKey(sortedBy), reverse), limit))
    }

    /** `printAllBooksSorted` as its documentation describes it: the name is
        matched without regard to case, and the key of that name is used. */
    function AllBooksSortedFixed(sortedBy: string, reverse: bool, limit: Option<int>): (r: Result<seq<Book>>)
      reads this
      ensures r.Err? <==> !SortName(Lower(sortedBy))
      ensures r.Err? ==> r.error == ValueError
      ensures r.Ok? ==> r.value == TakeAtMost(SortBy(books, SortKey(CanonicalKey(Lower(sortedBy))), reverse), limit)
      ensures r.Ok? ==> forall i, j :: 0 <= i < j < |r.value| ==>
        !Precedes(SortKey(CanonicalKey(Lower(sortedBy)))(r.value[j]),
                  SortKey(CanonicalKey(Lower(sortedBy)))(r.value[i]), reverse)
      ensures r.Ok? ==> multiset(r.value) <= multiset(books)
      ensures r.Ok? && limit.None? ==> multiset(r.value) == multiset(books)
    {
      var lower := Lower(sortedBy);
      if !SortName(lower) then Err(ValueError)
      else
        var key := SortKey(CanonicalKey(lower));
        SortedPrefix(books, key, reverse, limit);
        Ok(TakeAtMost(SortBy(books, key, reverse), limit))
    }
  }

  /** As written, a lower-case name such as "price" passes the check and
      then fails the key lookup as soon as there is a book. */
  lemma LowerCaseNameFails(d: BookData, sortedBy: string, reverse: bool, limit: Option<int>)
    requires d.books != [] && SortName(sortedBy)
    ensures d.AllBooksSorted(sortedBy, reverse, limit) == Err(KeyError)
    ensures d.AllBooksSortedFixed(sortedBy, reverse, limit).Ok?
  {
    LowerCaseName(sortedBy);
  }

  lemma LowerCaseName(sortedBy: string)
    requires SortName(sortedBy)
    ensures Lower(sortedBy) == sortedBy && !KeyName(sortedBy)
  {
    LowerNames();
    KeyNameInitial(sortedBy);
  }

  /** On the capitalised names both versions sort alike. */
  lemma FixedAgreesOnKeys(d: BookData, sortedBy: string, reverse: bool, limit: Option<int>)
    requires KeyName(sortedBy)
    ensures d.AllBooksSortedFixed(sortedBy, reverse, limit) == d.AllBooksSorted(sortedBy, reverse, limit)
  {
    LowerKeys();
    var lower := Lower(sortedBy);
    assert SortName(lower);
    assert CanonicalKey(lower) == sortedBy;
  }

  lemma LowerKeys()
    ensures Lower("Price") == "price" && Lower("Title") == "title" && Lower("Author") == "author"
  {
    LowerAscii("Price", "price");
    LowerAscii("Title", "title");
    LowerAscii("Author", "author");
  }

  lemma LowerNames()
    ensures Lower("price") == "price" && Lower("title") == "title" && Lower("author") == "author"
  {
    LowerAscii("price", "price");
    LowerAscii("title", "title");
    LowerAscii("author", "author");
  }

  lemma LowerAscii(s: string, t: string)
    requires |s| == |t| && forall i :: 0 <= i < |s| ==> LowerChar(s[i]) == t[i]
    ensures Lower(s) == t
  {
  }
}
