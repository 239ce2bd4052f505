/** How a record finds its table: `set` prefixes the key, recovery parses the prefix off again. */
module Namespace {

  /** Position of the first colon, or the length if there is none. */
  function FirstColon(s: string): (i: nat)
    ensures i <= |s| && ':' !in s[..i]
    ensures i < |s| ==> s[i] == ':'
  {
    if s == "" || s[0] == ':' then 0 else 1 + FirstColon(s[1..])
  }

  /** `_recover_transactions`: the text before the first colon, `default` when that is missing or empty. */
  function TableOf(key: string): string {
    var i := FirstColon(key);
    if i < |key| && i > 0 then key[..i] else "default"
  }

  function Namespaced(table: string, key: string): string { table + ":" + key }

  /** Recovery returns a record to the table it was written to exactly when the table name has no colon. */
  lemma NamespaceRoundTrip(table: string, key: string)
    requires table != ""
    ensures TableOf(Namespaced(table, key)) == table <==> ':' !in table
  {
    var s := Namespaced(table, key);
    var i := FirstColon(s);
    assert s[|table|] == ':';
    if i < |table| {
      assert table[i] == s[i] == ':';
      assert i == 0 ==> table != "default" by { assert "default"[0] == 'd'; }
    } else {
      assert i == |table| by {
        forall j | |table| < j <= |s| ensures ':' in s[..j] { assert s[..j][|table|] == ':'; }
      }
      assert s[..|table|] == table;
      assert forall j | 0 <= j < |table| :: table[j] == s[..i][j];
    }
  }

  /** The record's own key comes back whole from behind the table name and one colon. */
  lemma KeyBehindTable(table: string, key: string)
    ensures var s := Namespaced(table, key);
            |s| == |table| + 1 + |key| && s[..|table|] == table && s[|table|] == ':' && s[|table| + 1..] == key
  {}

  /** Within a table no two keys share a record. */
  lemma KeysApart(table: string, a: string, b: string)
    ensures Namespaced(table, a) == Namespaced(table, b) <==> a == b
  {
    KeyBehindTable(table, a);
    KeyBehindTable(table, b);
  }

  /** Two tables share a record exactly if one name is the other with a colon and more, which the key then makes up. */
  lemma TablesApart(t: string, a: string, u: string, b: string)
    requires |t| <= |u|
    ensures Namespaced(t, a) == Namespaced(u, b) <==>
            (t == u && a == b) || (t + ":" <= u && a == u[|t| + 1..] + ":" + b)
  {
    var s, r := Namespaced(t, a), Namespaced(u, b);
    KeyBehindTable(t, a);
    KeyBehindTable(u, b);
    if s == r {
      assert u[..|t|] == r[..|t|] == t;
      if |t| == |u| {
        assert t == u && a == b;
      } else {
        assert u[|t|] == r[|t|] == s[|t|] == ':';
        assert u[..|t| + 1] == t + ":";
        assert a == s[|t| + 1..] == r[|t| + 1..] == u[|t| + 1..] + ":" + b;
      }
    }
  }

  /** With colon-free table names a record belongs to one table and one key only. */
  lemma ColonFreeApart(t: string, a: string, u: string, b: string)
    requires ':' !in t && ':' !in u
    ensures Namespaced(t, a) == Namespaced(u, b) <==> t == u && a == b
  {
    if |t| <= |u| {
      TablesApart(t, a, u, b);
      assert (t + ":")[|t|] == ':';
    } else {
      TablesApart(u, b, t, a);
      assert (u + ":")[|u|] == ':';
    }
  }

  /** What is before a first colon that is not the first character names the table; without one it is `default`. */
  lemma TableOfRead(s: string, i: nat)
    requires i <= |s| && ':' !in s[..i] && (i < |s| ==> s[i] == ':')
    ensures TableOf(s) == if 0 < i < |s| then s[..i] else "default"
  {
    var f := FirstColon(s);
    assert forall k | 0 <= k < i :: s[k] == s[..i][k];
    assert forall k | 0 <= k < f :: s[k] == s[..f][k];
  }
}
