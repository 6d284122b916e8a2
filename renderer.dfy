/**
 * The replacement text the selection is rewritten to: a reference to the catalog entry,
 * followed by a call that passes the placeholders in order when there are any.
 */
module Renderer {
  import opened Wrappers
  import opened Text

  /** `'<id>'.localized` */
  function Reference(id: string): (r: string)
    ensures |r| == |id| + 12 && r[0] == '\'' && r[|id| + 1] == '\''
    ensures r[1..|id| + 1] == id && r[|id| + 2..] == ".localized"
  {
    "'" + id + "'.localized"
  }

  /** The replacement for the selection: the bare reference when there are no placeholders,
      and otherwise the reference followed by `.format(` and the placeholders joined by
      `, `, then `)`. */
  function Render(id: string, placeholders: seq<string>): (r: string)
    ensures StartsWith(r, Reference(id))
    ensures r == Reference(id) <==> placeholders == []
  {
    if |placeholders| == 0 then Reference(id)
    else Reference(id) + ".format(" + Join(placeholders, ", ") + ")"
  }

  /** What a replacement says: the id between the leading quote and the next quote, and the
      argument text of the `.format(...)` call when there is one. None for any text that is
      not of either shape. */
  function ParseReplacement(r: string): Option<(string, Option<string>)>
  {
    if |r| == 0 || r[0] != '\'' then None
    else
      var j := IndexFrom(r, '\'', 1);
      if j == |r| then None
      else
        var after := r[j + 1..];
        if after == ".localized" then Some((r[1..j], None))
        else if |after| >= 19 && after[..18] == ".localized.format(" && after[|after| - 1] == ')' then
          Some((r[1..j], Some(after[18..|after| - 1])))
        else None
  }

  /** Reading a rendered replacement back gives the id it was built from and, when there are
      placeholders, exactly their `, `-joined list, as long as the id holds no quote. */
  lemma RenderRoundTrip(id: string, placeholders: seq<string>)
    requires '\'' !in id
    ensures ParseReplacement(Render(id, placeholders)) ==
      Some((id, if placeholders == [] then None else Some(Join(placeholders, ", "))))
  {
    var ref := Reference(id);
    var r := Render(id, placeholders);
    var tail := if placeholders == [] then [] else ".format(" + Join(placeholders, ", ") + ")";
    assert r == ref + tail by {
      if placeholders != [] {
        ConcatRegroup(ref, ".format(", Join(placeholders, ", "), ")");
      }
    }
    assert r[0] == '\'';
    assert IndexFrom(r, '\'', 1) == |id| + 1 by {
      IndexFromIsFirst(r, '\'', 1);
      forall i | 1 <= i < |id| + 1 ensures r[i] != '\'' {
        assert r[i] == id[i - 1];
      }
      assert r[|id| + 1] == '\'';
    }
    assert r[1..|id| + 1] == id;
    var after := r[|id| + 2..];
    assert after == ".localized" + tail;
    if placeholders != [] {
      var args := Join(placeholders, ", ");
      assert after == ".localized.format(" + args + ")";
      assert after[..18] == ".localized.format(";
      assert after[18..|after| - 1] == args;
      assert after != ".localized";
    }
  }

  /** The arguments are listed in the order the placeholders were collected: one more
      placeholder adds `, ` and itself at the end of the argument list. */
  lemma FormatArgumentsInOrder(id: string, placeholders: seq<string>, p: string)
    requires placeholders != []
    ensures Render(id, placeholders + [p]) ==
      Reference(id) + ".format(" + Join(placeholders, ", ") + ", " + p + ")"
  {
    JoinAppend(placeholders, p, ", ");
  }

  /** With one placeholder the replacement is the reference, then `.format(`, the
      placeholder and `)`. */
  lemma RenderSingle(id: string, x: string)
    ensures Render(id, [x]) == "'" + id + "'.localized.format(" + x + ")"
  {
    assert Join([x], ", ") == x;
    ConcatRegroup("'" + id, "'.localized", ".format(", x + ")");
  }
}
