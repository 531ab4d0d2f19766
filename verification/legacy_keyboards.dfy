/**
  tictactoebot/Keyboards.py: an older copy of the language keyboard.
  Its make_splited_inline_kb is the same loop as the one in
  tictactoebot/keyboards.py (only the dictionary parameter is named
  differently), so it shares Keyboards.MakeSplitedInlineKb; its
  make_lang_kb leaves `size` at its default of 3.
 */
module LegacyKeyboards {
  import opened Keyboards

  /** make_lang_kb with the default size: at most four languages per row. */
  method MakeLangKb(langs: seq<Entry>) returns (keyboard: seq<seq<Button>>)
    ensures Flatten(keyboard) == Buttons(langs)
    ensures forall r :: 0 <= r < |keyboard| - 1 ==> |keyboard[r]| == 4
    ensures |keyboard| >= 1 && |keyboard[|keyboard| - 1]| == |langs| % 4
    ensures |keyboard| == |langs| / 4 + 1
  {
    keyboard := MakeSplitedInlineKb(langs, DefaultSize);
  }
}
