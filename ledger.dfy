/**
 * The balance ledger: the per-chat map of YC points, its credit and query,
 * and its conversion to and from the entry list `balances.json` holds
 * (`load_balances`, `save_balances`).
 */
module Ledger {
  import opened Wrappers

  /** One record of `balances.json`. */
  datatype BalanceEntry = BalanceEntry(chatId: int, balance: int)

  /** The balance of a chat: the stored one, or 0 for a chat never credited. */
  function Get(balances: map<int, int>, chatId: int): (b: int)
    ensures chatId in balances ==> b == balances[chatId]
    ensures chatId !in balances ==> b == 0
  {
    if chatId in balances then balances[chatId] else 0
  }

  /**
   * `*balances.entry(chat_id).or_insert(0) += value`: the chat's balance
   * becomes its old balance (0 if absent) plus `value`; no other chat changes.
   */
  function Credit(balances: map<int, int>, chatId: int, value: int): (r: map<int, int>)
    ensures r.Keys == balances.Keys + {chatId}
    ensures r[chatId] == Get(balances, chatId) + value
    ensures forall k :: k in balances && k != chatId ==> r[k] == balances[k]
  {
    balances[chatId := Get(balances, chatId) + value]
  }

  /** A credit followed by a query gives the old balance plus the value; other chats read as before. */
  lemma CreditThenGet(balances: map<int, int>, chatId: int, value: int, other: int)
    ensures Get(Credit(balances, chatId, value), chatId) == Get(balances, chatId) + value
    ensures other != chatId ==> Get(Credit(balances, chatId, value), other) == Get(balances, other)
  {
  }

  /** Every stored balance is at least 0. */
  predicate NonNegative(balances: map<int, int>) {
    forall k :: k in balances ==> balances[k] >= 0
  }

  /** Crediting a non-negative value never lowers a balance and keeps all balances non-negative. */
  lemma CreditNeverDecreases(balances: map<int, int>, chatId: int, value: int)
    requires value >= 0
    ensures Get(Credit(balances, chatId, value), chatId) >= Get(balances, chatId)
    ensures NonNegative(balances) ==> NonNegative(Credit(balances, chatId, value))
  {
  }

  /** `keys` lists every chat of the map exactly once: a `HashMap` iteration order. */
  predicate IsKeyOrder(keys: seq<int>, balances: map<int, int>) {
    && (forall i, j :: 0 <= i < j < |keys| ==> keys[i] != keys[j])
    && (forall i :: 0 <= i < |keys| ==> keys[i] in balances)
    && (forall k :: k in balances ==> k in keys)
  }

  /** Every map has an iteration order. */
  lemma {:induction false} KeyOrderOf(balances: map<int, int>) returns (keys: seq<int>)
    ensures IsKeyOrder(keys, balances)
    decreases |balances|
  {
    if forall x :: x !in balances {
      keys := [];
    } else {
      var k :| k in balances;
      var rest := balances - {k};
      assert rest.Keys == balances.Keys - {k};
      var restKeys := KeyOrderOf(rest);
      keys := restKeys + [k];
    }
  }

  /** A duplicate-free list has as many distinct elements as entries. */
  lemma {:induction false} DistinctCount(keys: seq<int>)
    requires forall i, j :: 0 <= i < j < |keys| ==> keys[i] != keys[j]
    ensures |set k | k in keys| == |keys|
  {
    if keys != [] {
      var init := keys[..|keys| - 1];
      var last := keys[|keys| - 1];
      DistinctCount(init);
      assert (set k | k in keys) == (set k | k in init) + {last};
      assert last !in init;
    }
  }

  /** An iteration order has as many chats as the map: one record per chat. */
  lemma KeyOrderLength(keys: seq<int>, balances: map<int, int>)
    requires IsKeyOrder(keys, balances)
    ensures |keys| == |balances|
  {
    DistinctCount(keys);
    forall x ensures x in balances.Keys <==> x in (set k | k in keys) {
      if x in keys {
        var i :| 0 <= i < |keys| && keys[i] == x;
      }
    }
    assert balances.Keys == set k | k in keys;
  }

  /**
   * The entry list `save_balances` serialises: one record per listed chat,
   * carrying that chat's balance, in the iteration order `keys`.
   */
  function ToEntries(balances: map<int, int>, keys: seq<int>): (es: seq<BalanceEntry>)
    requires forall i :: 0 <= i < |keys| ==> keys[i] in balances
    ensures |es| == |keys|
    ensures forall i :: 0 <= i < |es| ==> es[i].chatId == keys[i] && es[i].balance == balances[keys[i]]
  {
    seq(|keys|, i requires 0 <= i < |keys| => BalanceEntry(keys[i], balances[keys[i]]))
  }

  /**
   * `load_balances`' collect into a `HashMap`: the entries are inserted in
   * order, so a later record for a chat overrides an earlier one.
   */
  function FromEntries(es: seq<BalanceEntry>): (m: map<int, int>)
    ensures m.Keys == set i | 0 <= i < |es| :: es[i].chatId
    ensures forall i :: 0 <= i < |es| && LastRecordFor(es, i) ==> m[es[i].chatId] == es[i].balance
  {
    if es == [] then map[]
    else
      var init := FromEntries(es[..|es| - 1]);
      var last := es[|es| - 1];
      assert (set i | 0 <= i < |es| :: es[i].chatId) == init.Keys + {last.chatId} by {
        forall i | 0 <= i < |es| - 1 ensures es[i].chatId in init.Keys {
          assert es[..|es| - 1][i] == es[i];
        }
        forall k | k in init.Keys ensures exists i :: 0 <= i < |es| && es[i].chatId == k {
          var i :| 0 <= i < |es| - 1 && es[..|es| - 1][i].chatId == k;
          assert es[i].chatId == k;
        }
      }
      var m := init[last.chatId := last.balance];
      forall i | 0 <= i < |es| && LastRecordFor(es, i) ensures m[es[i].chatId] == es[i].balance {
        if i < |es| - 1 {
          LastRecordInPrefix(es, i);
          var p := es[..|es| - 1];
          assert LastRecordFor(p, i) && p[i] == es[i];
          assert init[p[i].chatId] == p[i].balance;
        }
      }
      m
  }

  /** No later record names the chat of record `i`: it is the one a load keeps. */
  predicate LastRecordFor(es: seq<BalanceEntry>, i: nat)
    requires i < |es|
  {
    forall j :: i < j < |es| ==> es[j].chatId != es[i].chatId
  }

  /** A record that is the last for its chat stays so once the final record is dropped, and names another chat. */
  lemma LastRecordInPrefix(es: seq<BalanceEntry>, i: nat)
    requires i < |es| - 1 && LastRecordFor(es, i)
    ensures es[i].chatId != es[|es| - 1].chatId
    ensures es[..|es| - 1][i] == es[i] && LastRecordFor(es[..|es| - 1], i)
  {
    var init := es[..|es| - 1];
    forall j | i < j < |init| ensures init[j].chatId != init[i].chatId {
      assert init[j] == es[j];
    }
  }

  /** Reading back the entries of the chats `keys` gives the map restricted to them. */
  lemma {:induction false} FromToEntries(balances: map<int, int>, keys: seq<int>)
    requires forall i :: 0 <= i < |keys| ==> keys[i] in balances
    ensures FromEntries(ToEntries(balances, keys)) == map k | k in keys :: balances[k]
  {
    if keys != [] {
      var init := keys[..|keys| - 1];
      FromToEntries(balances, init);
      assert ToEntries(balances, keys)[..|keys| - 1] == ToEntries(balances, init);
    }
  }

  /** Saving the map in any iteration order and loading the records back gives the same map. */
  lemma SaveLoadRoundTrip(balances: map<int, int>, keys: seq<int>)
    requires IsKeyOrder(keys, balances)
    ensures |ToEntries(balances, keys)| == |balances|
    ensures FromEntries(ToEntries(balances, keys)) == balances
  {
    KeyOrderLength(keys, balances);
    FromToEntries(balances, keys);
    forall x | x in balances ensures x in keys { }
    forall x | x in keys ensures x in balances {
      var i :| 0 <= i < |keys| && keys[i] == x;
    }
    assert (map k | k in keys :: balances[k]) == balances;
  }

  /**
   * `load_balances`: the records read from `balances.json`, or `None` when
   * the data directory, the file or its parse is missing; then the ledger starts empty.
   */
  function LoadBalances(parsed: Option<seq<BalanceEntry>>): (m: map<int, int>)
    ensures parsed.None? ==> m == map[]
    ensures parsed.Some? ==> m.Keys == set i | 0 <= i < |parsed.value| :: parsed.value[i].chatId
    ensures parsed.Some? ==> forall i :: 0 <= i < |parsed.value| && LastRecordFor(parsed.value, i) ==>
              m[parsed.value[i].chatId] == parsed.value[i].balance
  {
    match parsed
    case None => map[]
    case Some(es) => FromEntries(es)
  }
}
