/** The echo mode: the lines it was given, shown in their own order. */
module Echo {
  import opened Base
  import opened IndexList
  import MenuItemModels

  class EchoMode {
    const strings: seq<string>

    constructor (strings: seq<string>)
      ensures this.strings == strings
    {
      this.strings := strings;
    }

    /** `model()`: a fresh projection holding every line in order. */
    method Model() returns (m: ListModel)
      ensures fresh(m) && m.Valid()
      ensures m.items == Identity(|strings|)
      ensures m.pool == [] && m.handedOut == {}
      ensures m.emitted == [ItemsChanged(0, 0, Wrap(|strings|))]
    {
      m := new ListModel();
      m.SetIndices(Identity(|strings|));
    }

    /** `get_menu_item_model`: the line a wrapper stands for; an index past
        the end panics, so it is excluded. */
    function GetMenuItemModel(item: Index): (s: string)
      reads item
      requires item.index < |strings|
      ensures s == strings[item.index] && s in strings
    {
      strings[item.index]
    }
  }

  /** `name()` of a line: the line itself. */
  function Name(s: string): (r: string)
    ensures r == s
  {
    s
  }

  /** `run_action()` of a line: printing it never fails. */
  function RunAction(s: string): (r: Result<(), MenuItemModels.ActionError>)
    ensures r.Ok?
  {
    Ok(())
  }

  /** A wrapper for position `p` of the projection `Model` builds resolves
      to the line at original index `p`, and that line is its name. */
  lemma ModelResolvesPosition(mode: EchoMode, p: nat, item: Index)
    requires |mode.strings| < U32Limit && p < |mode.strings|
    requires item.index == Identity(|mode.strings|)[p]
    ensures item.index == p
    ensures Name(mode.GetMenuItemModel(item)) == mode.strings[p]
  {
  }
}
