/** Text under a line editor, where a backspace removes the character before it. */
module Editing {

  const BACKSPACE: char := 8 as char

  /** What a line editor makes of one more character. */
  function Edit(text: string, c: char): string {
    if c != BACKSPACE then text + [c] else if text == "" then "" else text[..|text| - 1]
  }

  function EditAll(text: string, typed: string): string
    decreases |typed|
  {
    if typed == "" then text else EditAll(Edit(text, typed[0]), typed[1..])
  }

  lemma {:induction false} EditAllAppend(text: string, a: string, b: string)
    ensures EditAll(text, a + b) == EditAll(EditAll(text, a), b)
    decreases |a|
  {
    if a == "" {
      assert a + b == b;
    } else {
      assert (a + b)[1..] == a[1..] + b;
      EditAllAppend(Edit(text, a[0]), a[1..], b);
    }
  }

  lemma EditAllSnoc(text: string, a: string, c: char)
    ensures EditAll(text, a + [c]) == Edit(EditAll(text, a), c)
  {
    EditAllAppend(text, a, [c]);
    assert [c][1..] == "";
  }
}
