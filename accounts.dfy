/**
 * The colour an account's events and tasks are drawn in: neutral stone when
 * no account is named, otherwise one of five colours chosen by the account's
 * position in the list of connected accounts.
 */
module Accounts {
  import opened Types
  import opened Seqs

  datatype Palette = Stone | Amber | Blue | Emerald | Rose | Violet

  /** The colours handed out to connected accounts, in order. */
  const Colors: seq<Palette> := [Amber, Blue, Emerald, Rose, Violet]

  /** `findIndex`: the first position of x in s, or -1 when x does not occur. */
  function IndexOf(s: seq<string>, x: string): (i: int)
    ensures i == -1 <==> x !in s
    ensures i != -1 ==> 0 <= i < |s| && s[i] == x && x !in s[..i]
  {
    if s == [] then -1
    else if s[0] == x then 0
    else
      var j := IndexOf(s[1..], x);
      assert j != -1 ==> s[..j + 1] == [s[0]] + s[1..][..j];
      assert j == -1 ==> s == [s[0]] + s[1..];
      if j == -1 then -1 else j + 1
  }

  /**
   * The colour of an account email against the connected accounts: stone for
   * a missing or empty email, the first colour for an email that is not
   * connected, and otherwise the colour of its position modulo five.
   */
  function AccountColor(email: Option<string>, connections: seq<string>): (c: Palette)
    ensures (email == None || email == Some("")) <==> c == Stone
    ensures c != Stone ==> c in Colors
  {
    if email == None || email == Some("") then Stone
    else
      var index := IndexOf(connections, email.value);
      Colors[if index == -1 then 0 else index % |Colors|]
  }

  lemma {:induction false} IndexOfDistinct(s: seq<string>, i: nat)
    requires NoDuplicates(s) && i < |s|
    ensures IndexOf(s, s[i]) == i
  {
  }

  /** A connected account's colour is that of its position modulo five. */
  lemma {:induction false} ColorOfPosition(connections: seq<string>, i: nat)
    requires NoDuplicates(connections) && i < |connections| && connections[i] != ""
    ensures AccountColor(Some(connections[i]), connections) == Colors[i % 5]
  {
    IndexOfDistinct(connections, i);
  }

  /** The first five distinct connected accounts get five different colours. */
  lemma {:induction false} FirstFiveDistinct(connections: seq<string>, i: nat, j: nat)
    requires NoDuplicates(connections)
    requires i < j < |connections| && j < |Colors|
    requires connections[i] != "" && connections[j] != ""
    ensures AccountColor(Some(connections[i]), connections) != AccountColor(Some(connections[j]), connections)
  {
    ColorOfPosition(connections, i);
    ColorOfPosition(connections, j);
    assert i % 5 == i && j % 5 == j;
  }

  /** The colours repeat every five accounts. */
  lemma {:induction false} ColorsRepeat(connections: seq<string>, i: nat)
    requires NoDuplicates(connections)
    requires i + |Colors| < |connections|
    requires connections[i] != "" && connections[i + |Colors|] != ""
    ensures AccountColor(Some(connections[i]), connections)
         == AccountColor(Some(connections[i + |Colors|]), connections)
  {
    ColorOfPosition(connections, i);
    ColorOfPosition(connections, i + 5);
    assert (i + 5) % 5 == i % 5;
  }

  /** An email that is not connected is drawn like the first connected account. */
  lemma {:induction false} UnknownLooksLikeFirst(e: string, connections: seq<string>)
    requires e != "" && e !in connections
    ensures AccountColor(Some(e), connections) == Amber
    ensures connections != [] && connections[0] != "" ==> AccountColor(Some(connections[0]), connections) == Amber
  {
  }
}
