/** Facts about sequences shared by the modules of this project. */
module Seqs {
  /** Extending a prefix by one position appends that position's element. */
  lemma PrefixSnoc<T>(s: seq<T>, k: nat)
    requires 0 < k <= |s|
    ensures s[..k] == s[..k - 1] + [s[k - 1]]
  {
  }

  /** Taking one element off the front of the rest moves it to the end of the part already taken. */
  lemma MoveFront<T>(done: seq<T>, rest: seq<T>)
    requires rest != []
    ensures done + rest == (done + [rest[0]]) + rest[1..]
  {
    assert rest == [rest[0]] + rest[1..];
  }

  /** Appending one element and then a tail is prepending that element to the tail. */
  lemma SnocAppend<T>(done: seq<T>, v: T, rest: seq<T>)
    ensures (done + [v]) + rest == done + ([v] + rest)
  {
  }
}
