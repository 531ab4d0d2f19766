/**
  Inline-keyboard layout of tictactoebot/keyboards.py: a dictionary of
  entries laid out as rows of buttons.

  A button is reduced to the two things the source puts in it: the
  entry's value as its text and the entry's key as the code its callback
  data carries. A dictionary is its sequence of (key, value) pairs in
  iteration order.
 */
module Keyboards {

  /** A dictionary item: its key and its value. */
  type Entry = (string, string)

  datatype Button = Button(text: string, code: string)

  /** The default of make_splited_inline_kb's `size` argument. */
  const DefaultSize := 3

  /** Buttons in a full row: a new row starts once the counter exceeds `size`. */
  function RowWidth(size: int): nat {
    if size < 0 then 1 else size + 1
  }

  /** The buttons of all rows, row after row. */
  function Flatten(rows: seq<seq<Button>>): seq<Button> {
    if rows == [] then [] else Flatten(rows[..|rows| - 1]) + rows[|rows| - 1]
  }

  /** One button per entry, in entry order, text from the value and code from the key. */
  function Buttons(entries: seq<Entry>): (r: seq<Button>)
    ensures |r| == |entries|
    ensures forall i :: 0 <= i < |entries| ==> r[i] == Button(entries[i].1, entries[i].0)
  {
    if entries == [] then []
    else Buttons(entries[..|entries| - 1]) + [Button(entries[|entries| - 1].1, entries[|entries| - 1].0)]
  }

  /**
    `rows` lays out `buttons` in rows of `width`: the rows read in order
    give the buttons, every row but the last is full, and the last is not.
   */
  predicate Chunked(rows: seq<seq<Button>>, buttons: seq<Button>, width: nat) {
    && |rows| >= 1
    && Flatten(rows) == buttons
    && FullRows(rows, width)
    && |rows[|rows| - 1]| < width
  }

  /**
    make_splited_inline_kb: the open row (the source's `child`, which
    `parent` already holds) is always the last row; a full row is closed
    by appending a fresh empty one. So there is always at least one row,
    and the last row is empty exactly when the entry count is a multiple
    of the row width (zero included). The ensures are the conjuncts of
    Chunked(keyboard, Buttons(entries), RowWidth(size)), the last row being
    short because it holds a remainder, so by ChunkedIsUnique no other
    layout meets them.
   */
  method MakeSplitedInlineKb(entries: seq<Entry>, size: int) returns (keyboard: seq<seq<Button>>)
    ensures |keyboard| >= 1 && Flatten(keyboard) == Buttons(entries)
    ensures FullRows(keyboard, RowWidth(size))
    ensures |keyboard| == |entries| / RowWidth(size) + 1
    ensures |keyboard| >= 1 && |keyboard[|keyboard| - 1]| == |entries| % RowWidth(size)
  {
    ghost var width := RowWidth(size);
    var parent: seq<seq<Button>> := [[]];
    var index := 0;
    for k := 0 to |entries|
      invariant |parent| >= 1 && FullRows(parent, width)
      invariant index == |parent[|parent| - 1]| < width
      invariant Flatten(parent) == Buttons(entries[..k])
    {
      var (key, value) := entries[k];
      AppendToLastRow(parent, Button(value, key), width);
      BeforeAndLast(entries, k);
      parent := parent[..|parent| - 1] + [parent[|parent| - 1] + [Button(value, key)]];
      index := index + 1;
      if index > size {
        OpenRow(parent, width);
        parent := parent + [[]];
        index := 0;
      }
    }
    assert entries[..|entries|] == entries;
    ChunkedShape(parent, Buttons(entries), width);
    DivMod(|entries|, |parent| - 1, index, width);
    keyboard := parent;
  }

  /** Every row but the last holds `width` buttons. */
  predicate FullRows(rows: seq<seq<Button>>, width: nat) {
    forall r :: 0 <= r < |rows| - 1 ==> |rows[r]| == width
  }

  /** Adding a button to the last row adds it at the end of the whole layout and leaves the other rows alone. */
  lemma AppendToLastRow(rows: seq<seq<Button>>, button: Button, width: nat)
    requires |rows| >= 1 && FullRows(rows, width)
    ensures var rows' := rows[..|rows| - 1] + [rows[|rows| - 1] + [button]];
            |rows'| == |rows| && FullRows(rows', width) &&
            |rows'[|rows| - 1]| == |rows[|rows| - 1]| + 1 &&
            Flatten(rows') == Flatten(rows) + [button]
  {
  }

  /** Closing a full last row by opening an empty one leaves the buttons as they are. */
  lemma OpenRow(rows: seq<seq<Button>>, width: nat)
    requires |rows| >= 1 && FullRows(rows, width) && |rows[|rows| - 1]| == width
    ensures FullRows(rows + [[]], width)
    ensures Flatten(rows + [[]]) == Flatten(rows)
  {
  }

  lemma BeforeAndLast(entries: seq<Entry>, k: int)
    requires 0 <= k < |entries|
    ensures Buttons(entries[..k + 1]) == Buttons(entries[..k]) + [Button(entries[k].1, entries[k].0)]
  {
  }

  /** make_lang_kb: the language dictionary laid out with `size` 2: full rows of three. */
  method MakeLangKb(langs: seq<Entry>) returns (keyboard: seq<seq<Button>>)
    ensures Flatten(keyboard) == Buttons(langs)
    ensures forall r :: 0 <= r < |keyboard| - 1 ==> |keyboard[r]| == 3
    ensures |keyboard| >= 1 && |keyboard[|keyboard| - 1]| == |langs| % 3
    ensures |keyboard| == |langs| / 3 + 1
    ensures forall r :: 0 <= r < |keyboard| ==> |keyboard[r]| <= 3
  {
    keyboard := MakeSplitedInlineKb(langs, 2);
  }

  /** A layout in rows of `width` is fixed by the buttons: no two layouts of the same buttons differ. */
  lemma {:induction false} ChunkedIsUnique(rows: seq<seq<Button>>, rows': seq<seq<Button>>, buttons: seq<Button>, width: nat)
    requires Chunked(rows, buttons, width) && Chunked(rows', buttons, width)
    ensures rows == rows'
  {
    ChunkedShape(rows, buttons, width);
    ChunkedShape(rows', buttons, width);
    DivMod(|buttons|, |rows| - 1, |rows[|rows| - 1]|, width);
    DivMod(|buttons|, |rows'| - 1, |rows'[|rows'| - 1]|, width);
    forall r | 0 <= r < |rows| ensures rows[r] == rows'[r] {
      ChunkedRow(rows, buttons, width, r);
      ChunkedRow(rows', buttons, width, r);
    }
  }

  /** The buttons of a layout number (row count - 1) * width plus the last row. */
  lemma {:induction false} ChunkedShape(rows: seq<seq<Button>>, buttons: seq<Button>, width: nat)
    requires Chunked(rows, buttons, width)
    ensures |buttons| == (|rows| - 1) * width + |rows[|rows| - 1]|
  {
    FullRowsLength(rows[..|rows| - 1], width);
  }

  lemma {:induction false} FullRowsLength(rows: seq<seq<Button>>, width: nat)
    requires forall r :: 0 <= r < |rows| ==> |rows[r]| == width
    ensures |Flatten(rows)| == |rows| * width
  {
    if rows != [] {
      FullRowsLength(rows[..|rows| - 1], width);
    }
  }

  /** Row r of a layout in rows of `width` starts at button r * width. */
  lemma {:induction false} ChunkedRow(rows: seq<seq<Button>>, buttons: seq<Button>, width: nat, r: int)
    requires Chunked(rows, buttons, width) && 0 <= r < |rows|
    ensures r * width + |rows[r]| <= |buttons|
    ensures rows[r] == buttons[r * width .. r * width + |rows[r]|]
  {
    FlattenPrefix(rows, r + 1, width);
  }

  /** The first n rows, all full but maybe the last of them, flatten to a prefix of the whole. */
  lemma {:induction false} FlattenPrefix(rows: seq<seq<Button>>, n: nat, width: nat)
    requires 1 <= n <= |rows|
    requires forall r :: 0 <= r < n - 1 ==> |rows[r]| == width
    ensures |Flatten(rows[..n])| == (n - 1) * width + |rows[n - 1]| <= |Flatten(rows)|
    ensures Flatten(rows[..n]) == Flatten(rows)[..|Flatten(rows[..n])|]
    ensures rows[n - 1] == Flatten(rows)[(n - 1) * width .. (n - 1) * width + |rows[n - 1]|]
    decreases |rows| - n
  {
    FullRowsLength(rows[..n - 1], width);
    assert rows[..n][..n - 1] == rows[..n - 1];
    if n < |rows| {
      FlattenPrefixStep(rows, n);
    } else {
      assert rows[..n] == rows;
    }
  }

  lemma {:induction false} FlattenPrefixStep(rows: seq<seq<Button>>, n: nat)
    requires 1 <= n < |rows|
    ensures |Flatten(rows[..n])| <= |Flatten(rows)|
    ensures Flatten(rows[..n]) == Flatten(rows)[..|Flatten(rows[..n])|]
    decreases |rows| - n
  {
    var m := |rows| - 1;
    assert rows[..m] == rows[..|rows| - 1];
    if n < m {
      FlattenPrefixStep(rows[..m], n);
      assert rows[..m][..n] == rows[..n];
    } else {
      assert rows[..n] == rows[..|rows| - 1];
    }
  }

  /** Euclidean division is unique: n = q * w + r with 0 <= r < w fixes n / w and n % w. */
  lemma DivMod(n: int, q: int, r: int, w: int)
    requires w > 0 && 0 <= r < w && n == q * w + r
    ensures n / w == q && n % w == r
  {
    var d, m := n / w, n % w;
    assert d * w + m == n;
    assert (q - d) * w == m - r;
    if q - d >= 1 {
      MulAtLeast(q - d, w);
    } else if d - q >= 1 {
      MulAtLeast(d - q, w);
    }
  }

  lemma MulAtLeast(e: int, w: int)
    requires e >= 1 && w > 0
    ensures e * w >= w
  {
  }
}
