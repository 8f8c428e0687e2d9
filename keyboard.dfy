/** The inline keyboard listing keywords or subscriptions to delete, and the decoding of the
    callback data its buttons (and the menu buttons) send back. A keyboard is a sequence of
    rows of (label, callback data) buttons. */
module Keyboard {
  import opened Text

  datatype Button = Button(caption: string, data: string)

  const ButtonsPerRow := 3
  const BackLabel := "🔙 返回主菜单"
  const BackToMenu := "back_to_menu"
  const KeywordPrefix := "del_kw"
  const SubscriptionPrefix := "del_sub"

  /** The button that returns to the main menu. */
  function BackButton(): Button {
    Button(BackLabel, BackToMenu)
  }

  /** The button deleting one item: labelled "❌ item", sending "prefix_item". */
  function ItemButton(item: string, prefix: string): Button {
    Button("❌ " + item, prefix + "_" + item)
  }

  /** One button per item, in item order. */
  function ItemButtons(items: seq<string>, prefix: string): (r: seq<Button>)
    ensures |r| == |items|
    ensures forall i :: 0 <= i < |items| ==> r[i] == ItemButton(items[i], prefix)
  {
    seq(|items|, i requires 0 <= i < |items| => ItemButton(items[i], prefix))
  }

  /** Buttons grouped into rows of three, the last row holding what is left. */
  function Rows(bs: seq<Button>): seq<seq<Button>>
    decreases |bs|
  {
    if |bs| == 0 then []
    else if |bs| <= ButtonsPerRow then [bs]
    else [bs[..ButtonsPerRow]] + Rows(bs[ButtonsPerRow..])
  }

  /** The rows laid end to end. */
  function Flatten(rows: seq<seq<Button>>): seq<Button>
    decreases |rows|
  {
    if rows == [] then [] else rows[0] + Flatten(rows[1..])
  }

  /** CreateDeleteKeyboard */
  method CreateDeleteKeyboard(items: seq<string>, prefix: string) returns (keyboardRows: seq<seq<Button>>)
    ensures keyboardRows == Rows(ItemButtons(items, prefix)) + [[], [BackButton()]]
  {
    ghost var bs := ItemButtons(items, prefix);
    ghost var done := 0;
    keyboardRows := [];
    var currentRow: seq<Button> := [];
    var i := 0;
    while i < |items|
      invariant 0 <= done <= i <= |items| && done + |currentRow| == i
      invariant |currentRow| < ButtonsPerRow
      invariant i < |items| ==> done % ButtonsPerRow == 0
      invariant currentRow == bs[done..i]
      invariant keyboardRows == Rows(bs[..done])
      invariant i == |items| ==> currentRow == []
    {
      currentRow := currentRow + [ItemButton(items[i], prefix)];
      assert currentRow == bs[done..i + 1];
      if |currentRow| == ButtonsPerRow || i == |items| - 1 {
        RowsExtend(bs[..done], currentRow);
        assert bs[..done] + currentRow == bs[..i + 1];
        keyboardRows := keyboardRows + [currentRow];
        currentRow := [];
        done := i + 1;
      }
      i := i + 1;
    }
    assert bs[..done] == bs;
    keyboardRows := keyboardRows + [[]];
    keyboardRows := keyboardRows + [[BackButton()]];
  }

  /** Appending a row of one to three buttons to whole rows of three adds that row. */
  lemma {:induction false} RowsExtend(bs: seq<Button>, row: seq<Button>)
    requires |bs| % ButtonsPerRow == 0 && 1 <= |row| <= ButtonsPerRow
    ensures Rows(bs + row) == Rows(bs) + [row]
    decreases |bs|
  {
    if |bs| > 0 {
      var rest := bs[ButtonsPerRow..];
      RowsExtend(rest, row);
      assert (bs + row)[..ButtonsPerRow] == bs[..ButtonsPerRow];
      assert (bs + row)[ButtonsPerRow..] == rest + row;
      if |bs| == ButtonsPerRow {
        assert bs[..ButtonsPerRow] == bs && rest == [];
      }
      assert Rows(bs) == [bs[..ButtonsPerRow]] + Rows(rest);
    } else {
      assert bs + row == row;
    }
  }

  // ---------------------------------------------------------------- properties of the layout

  /** There are ⌈n/3⌉ item rows, each of one to three buttons, and laid end to end they are
      the buttons in order. */
  lemma {:induction false} RowsShape(bs: seq<Button>)
    ensures |Rows(bs)| == (|bs| + ButtonsPerRow - 1) / ButtonsPerRow
    ensures forall i :: 0 <= i < |Rows(bs)| ==> 1 <= |Rows(bs)[i]| <= ButtonsPerRow
    ensures Flatten(Rows(bs)) == bs
    decreases |bs|
  {
    if |bs| > ButtonsPerRow {
      var rest := bs[ButtonsPerRow..];
      RowsShape(rest);
      var rs := [bs[..ButtonsPerRow]] + Rows(rest);
      assert Rows(bs) == rs;
      assert rs[1..] == Rows(rest);
      assert forall i :: 1 <= i < |rs| ==> rs[i] == Rows(rest)[i - 1];
      assert bs == bs[..ButtonsPerRow] + rest;
    } else if |bs| > 0 {
      assert Rows(bs) == [bs];
      assert Flatten([bs]) == bs + Flatten([]);
    }
  }

  // ---------------------------------------------------------------- callbacks

  /** What a press of an inline button asks for, in the order handleCallbackQuery tests. */
  datatype Callback =
    | BackToMainMenu
    | AddKeyword
    | ViewKeywords
    | DeleteKeywordList
    | AddSubscription
    | ViewSubscriptions
    | DeleteSubscriptionList
    | ShowHelp
    | DeleteKeyword(keyword: string)
    | DeleteSubscription(name: string)
    | Unknown(data: string)

  /** handleCallbackQuery's dispatch on the callback data. */
  function DecodeCallback(data: string): Callback {
    if data == BackToMenu then BackToMainMenu
    else if data == "add_keyword" then AddKeyword
    else if data == "view_keywords" then ViewKeywords
    else if data == "delete_keyword" then DeleteKeywordList
    else if data == "add_subscription" then AddSubscription
    else if data == "view_subscriptions" then ViewSubscriptions
    else if data == "delete_subscription" then DeleteSubscriptionList
    else if data == "help" then ShowHelp
    else if HasPrefix(data, KeywordPrefix + "_") then DeleteKeyword(TrimPrefix(data, KeywordPrefix + "_"))
    else if HasPrefix(data, SubscriptionPrefix + "_") then DeleteSubscription(TrimPrefix(data, SubscriptionPrefix + "_"))
    else Unknown(data)
  }

  /** Data starting "del_" is none of the fixed menu callbacks. */
  lemma NotAMenuCommand(d: string)
    requires |d| >= 4 && d[..4] == "del_"
    ensures d != BackToMenu && d != "add_keyword" && d != "view_keywords" && d != "help"
    ensures d != "delete_keyword" && d != "add_subscription" && d != "view_subscriptions"
    ensures d != "delete_subscription"
  {
    assert d[0] == 'd' && d[3] == '_';
    assert BackToMenu[0] == 'b' && "help"[0] == 'h';
    assert "add_keyword"[0] == 'a' && "add_subscription"[0] == 'a';
    assert "view_keywords"[0] == 'v' && "view_subscriptions"[0] == 'v';
    assert "delete_keyword"[3] == 'e' && "delete_subscription"[3] == 'e';
  }

  /** A button of the keyword delete keyboard asks to delete exactly its keyword. */
  lemma KeywordButtonDecodes(item: string)
    ensures DecodeCallback(ItemButton(item, KeywordPrefix).data) == DeleteKeyword(item)
  {
    var d := ItemButton(item, KeywordPrefix).data;
    var p := KeywordPrefix + "_";
    assert d == p + item && p == "del_kw_";
    assert d[..7] == p && d[7..] == item;
    NotAMenuCommand(d);
  }

  /** A button of the subscription delete keyboard asks to delete exactly its subscription. */
  lemma SubscriptionButtonDecodes(item: string)
    ensures DecodeCallback(ItemButton(item, SubscriptionPrefix).data) == DeleteSubscription(item)
  {
    var d := ItemButton(item, SubscriptionPrefix).data;
    var p := SubscriptionPrefix + "_";
    assert d == p + item && p == "del_sub_";
    assert d[..8] == p && d[8..] == item;
    NotAMenuCommand(d);
    assert d[4] != (KeywordPrefix + "_")[4];
  }

  /** The back button of every delete keyboard returns to the main menu. */
  lemma BackButtonDecodes()
    ensures DecodeCallback(BackButton().data) == BackToMainMenu
  {
  }
}
