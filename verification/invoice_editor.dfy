/**
 * The line-item editor of the admin invoice page (app/admin/invoices/page.tsx):
 * the form state, adding, removing and editing lines, the input defaults of
 * the quantity and price fields, and the running total shown under the list.
 */
module InvoiceEditor {
  import opened Wrappers
  import opened Text

  /** One line of the form; amounts are in cents. */
  datatype EditorItem = EditorItem(
    id: Option<string>,
    description: string,
    quantity: int,
    unitPrice: int,
    total: int,
    notes: Option<string>)

  /** `formData`. */
  datatype InvoiceForm = InvoiceForm(
    companyId: string,
    quoteId: string,
    invoiceDate: string,
    notes: string,
    items: seq<EditorItem>)

  /** `total = quantity * unitPrice` on one line. */
  predicate Consistent(item: EditorItem) {
    item.total == item.quantity * item.unitPrice
  }

  /** Every line of the list is consistent. */
  predicate AllConsistent(items: seq<EditorItem>) {
    forall k :: 0 <= k < |items| ==> Consistent(items[k])
  }

  /** `items.reduce((sum, item) => sum + item.total, 0)` */
  function FormTotal(items: seq<EditorItem>): int
    decreases |items|
  {
    if |items| == 0 then 0 else FormTotal(items[..|items| - 1]) + items[|items| - 1].total
  }

  lemma {:induction false} FormTotalAppend(a: seq<EditorItem>, b: seq<EditorItem>)
    ensures FormTotal(a + b) == FormTotal(a) + FormTotal(b)
    decreases |b|
  {
    if |b| == 0 {
      assert a + b == a;
    } else {
      assert (a + b)[..|a + b| - 1] == a + b[..|b| - 1];
      FormTotalAppend(a, b[..|b| - 1]);
    }
  }

  // ---------------------------------------------------------------------------
  // resetForm, addItem, removeItem

  /** `resetForm()`: empty fields, no lines, today's date. */
  function ResetForm(today: string): (f: InvoiceForm)
    ensures f.items == [] && FormTotal(f.items) == 0
    ensures f.companyId == "" && f.quoteId == "" && f.notes == ""
    ensures f.invoiceDate == today
  {
    InvoiceForm("", "", today, "", [])
  }

  /** The line `addItem` appends. */
  const BlankItem := EditorItem(None, "", 1, 0, 0, None)

  /** `addItem()`: one blank line at the end; everything else as it was. */
  function AddItem(f: InvoiceForm): (g: InvoiceForm)
    ensures |g.items| == |f.items| + 1 && g.items[..|f.items|] == f.items
    ensures g.items[|f.items|] == BlankItem
    ensures g.(items := f.items) == f
  {
    f.(items := f.items + [BlankItem])
  }

  /** `items.filter((_, i) => i !== index)`, position by position. */
  function WithoutIndex(items: seq<EditorItem>, index: int): (r: seq<EditorItem>)
    ensures 0 <= index < |items| ==> r == items[..index] + items[index + 1..]
    ensures !(0 <= index < |items|) ==> r == items
    decreases |items|
  {
    if |items| == 0 then []
    else
      var rest := WithoutIndex(items[1..], index - 1);
      assert items == [items[0]] + items[1..];
      if index == 0 then rest else [items[0]] + rest
  }

  /** `removeItem(index)`. */
  function RemoveItem(f: InvoiceForm, index: int): (g: InvoiceForm)
    ensures g.(items := f.items) == f
    ensures 0 <= index < |f.items| ==> |g.items| == |f.items| - 1
    ensures !(0 <= index < |f.items|) ==> g == f
  {
    f.(items := WithoutIndex(f.items, index))
  }

  // ---------------------------------------------------------------------------
  // updateItem

  /** `updateItem(index, field, value)`: the field named and its new value. */
  datatype EditField =
    | Description(text: string)
    | Quantity(quantity: int)
    | UnitPrice(price: int)
    | Notes(note: string)
    | Total(amount: int)

  /**
   * `{ ...item, [field]: value }`, then the total recomputed when the
   * quantity or the unit price changed.
   */
  function ApplyEdit(item: EditorItem, field: EditField): (r: EditorItem)
    ensures r.id == item.id
    ensures (field.Quantity? || field.UnitPrice?) ==> Consistent(r)
    ensures !(field.Quantity? || field.UnitPrice? || field.Total?) ==> r.total == item.total
    ensures field.Description? ==> r == item.(description := field.text)
    ensures field.Notes? ==> r == item.(notes := Some(field.note))
    ensures field.Quantity? ==> r.(total := item.total) == item.(quantity := field.quantity)
    ensures field.UnitPrice? ==> r.(total := item.total) == item.(unitPrice := field.price)
    ensures field.Total? ==> r == item.(total := field.amount)
  {
    match field
    case Description(t) => item.(description := t)
    case Notes(n) => item.(notes := Some(n))
    case Total(a) => item.(total := a)
    case Quantity(q) => item.(quantity := q, total := q * item.unitPrice)
    case UnitPrice(p) => item.(unitPrice := p, total := item.quantity * p)
  }

  /** Editing any field but the total keeps a consistent line consistent. */
  lemma EditKeepsConsistent(item: EditorItem, field: EditField)
    requires Consistent(item) && !field.Total?
    ensures Consistent(ApplyEdit(item, field))
  {
  }

  /**
   * `updateItem`: copies the list, replaces line `index` and, for a quantity
   * or price change, assigns its total in place.
   */
  method UpdateItem(items: seq<EditorItem>, index: nat, field: EditField) returns (newItems: seq<EditorItem>)
    requires index < |items|
    ensures |newItems| == |items|
    ensures newItems[index] == ApplyEdit(items[index], field)
    ensures forall k :: 0 <= k < |items| && k != index ==> newItems[k] == items[k]
    ensures AllConsistent(items) && !field.Total? ==> AllConsistent(newItems)
    ensures FormTotal(newItems) == FormTotal(items) - items[index].total + newItems[index].total
  {
    var copy := new EditorItem[|items|](k requires 0 <= k < |items| => items[k]);
    var edited := match field
      case Description(t) => copy[index].(description := t)
      case Notes(n) => copy[index].(notes := Some(n))
      case Total(a) => copy[index].(total := a)
      case Quantity(q) => copy[index].(quantity := q)
      case UnitPrice(p) => copy[index].(unitPrice := p);
    copy[index] := edited;
    if field.Quantity? || field.UnitPrice? {
      copy[index] := copy[index].(total := copy[index].quantity * copy[index].unitPrice);
    }
    newItems := copy[..];
    assert newItems == items[..index] + [newItems[index]] + items[index + 1..];
    if AllConsistent(items) && !field.Total? {
      EditKeepsConsistent(items[index], field);
    }
    ReplaceTotal(items, index, newItems[index]);
  }

  /** Replacing one line changes the total by the difference of the two lines. */
  lemma ReplaceTotal(items: seq<EditorItem>, index: nat, item: EditorItem)
    requires index < |items|
    ensures FormTotal(items[..index] + [item] + items[index + 1..]) ==
      FormTotal(items) - items[index].total + item.total
  {
    var a, b := items[..index], items[index + 1..];
    assert items == a + [items[index]] + b;
    assert FormTotal(items) == FormTotal(a) + items[index].total + FormTotal(b) by {
      SplitTotal(a, items[index], b);
    }
    SplitTotal(a, item, b);
  }

  lemma SplitTotal(a: seq<EditorItem>, x: EditorItem, b: seq<EditorItem>)
    ensures FormTotal(a + [x] + b) == FormTotal(a) + x.total + FormTotal(b)
  {
    FormTotalAppend(a + [x], b);
    FormTotalAppend(a, [x]);
    assert [x][..0] == [];
  }

  // ---------------------------------------------------------------------------
  // Invariant and total under add / remove

  /** `addItem` keeps every line consistent and leaves the total unchanged. */
  lemma AddItemKeepsTotals(f: InvoiceForm)
    ensures AllConsistent(f.items) ==> AllConsistent(AddItem(f).items)
    ensures FormTotal(AddItem(f).items) == FormTotal(f.items)
  {
    assert AddItem(f).items[..|f.items|] == f.items;
  }

  /** `removeItem` takes out exactly that line's total. */
  lemma RemoveItemTotal(f: InvoiceForm, index: int)
    requires 0 <= index < |f.items|
    ensures FormTotal(RemoveItem(f, index).items) == FormTotal(f.items) - f.items[index].total
  {
    var a, b := f.items[..index], f.items[index + 1..];
    assert f.items == a + [f.items[index]] + b;
    assert FormTotal(f.items) == FormTotal(a) + f.items[index].total + FormTotal(b) by {
      SplitTotal(a, f.items[index], b);
    }
    FormTotalAppend(a, b);
  }

  /** `removeItem` keeps every line consistent. */
  lemma RemoveItemKeepsConsistent(f: InvoiceForm, index: int)
    requires AllConsistent(f.items)
    ensures AllConsistent(RemoveItem(f, index).items)
  {
    var r := RemoveItem(f, index).items;
    forall x | x in r
      ensures Consistent(x)
    {
      if 0 <= index < |f.items| {
        assert x in f.items[..index] + f.items[index + 1..];
        assert x in f.items;
      }
    }
  }

  // ---------------------------------------------------------------------------
  // Input defaults

  // The quantity input is `parseInt(value) || 1`, which is `Text.ParseIntOrOne`.

  /**
   * `parseFloat(value) || 0`, with the parsed amount (in cents) given:
   * NaN becomes 0, any other amount is kept.
   */
  function PriceInput(parsed: Option<int>): (p: int)
    ensures parsed.None? ==> p == 0
    ensures parsed.Some? ==> p == parsed.value
  {
    match parsed
    case None => 0
    case Some(v) => if v == 0 then 0 else v
  }
}
