/**
 The state of a TextView that its setters touch: the style-flag word, the
 caret width, the long-line column and the per-line image table. Each setter
 stores a new value and hands back the one it replaced; the window's repaint
 after a change is not part of this model.
 */
module TextView {
  import StyleFlags
  import LineImages

  /** An `int` / `LONG` on Win32: a signed 32-bit integer. */
  newtype Int32 = x: int | -0x8000_0000 <= x < 0x8000_0000

  datatype View = View(
    styleFlags: StyleFlags.Flags,
    caretWidth: Int32,
    longLineLimit: Int32,
    lineInfo: LineImages.Table)

  /** What a setter returns, the value it replaced, paired with the view
      after the change. */
  datatype Exchange<T> = Exchange(previous: T, view: View)

  /** The caret width the constructor falls back to when the system reports 0. */
  const DefaultCaretWidth: Int32 := 2

  /** The long-line column a new view starts with. */
  const DefaultLongLine: Int32 := 80

  /** The view as the constructor leaves it. `systemCaretWidth` is what the
      system reports for the caret width; `uninitialised` is whatever the
      line-image array holds before any line is set, and its length is the
      array's capacity. */
  function New(uninitialised: seq<LineImages.LineInfo>, systemCaretWidth: Int32): (v: View)
    ensures v.styleFlags == 0 && v.longLineLimit == DefaultLongLine
    ensures v.caretWidth != 0
    ensures systemCaretWidth != 0 ==> v.caretWidth == systemCaretWidth
    ensures systemCaretWidth == 0 ==> v.caretWidth == DefaultCaretWidth
    ensures LineImages.Valid(v.lineInfo) && |v.lineInfo.slots| == |uninitialised|
    ensures forall n :: !LineImages.HasLine(v.lineInfo, n)
  {
    View(0,
         if systemCaretWidth == 0 then DefaultCaretWidth else systemCaretWidth,
         DefaultLongLine,
         LineImages.Empty(uninitialised))
  }

  /** Changes the styles of `mask`: returns the previous flag word and stores
      the masked update of it; nothing else in the view changes. */
  function SetStyle(v: View, mask: StyleFlags.Flags, styles: StyleFlags.Flags): (r: Exchange<StyleFlags.Flags>)
    ensures r.previous == v.styleFlags
    ensures r.view.(styleFlags := v.styleFlags) == v
    ensures r.view.styleFlags == StyleFlags.Update(v.styleFlags, mask, styles)
  {
    var updated := StyleFlags.Update(v.styleFlags, mask, styles);
    Exchange(v.styleFlags, v.(styleFlags := updated))
  }

  /** Calling SetStyle twice with the same arguments leaves the view as one
      call does, and the second call reports the flags the first stored. */
  lemma SetStyleTwice(v: View, mask: StyleFlags.Flags, styles: StyleFlags.Flags)
    ensures var once := SetStyle(v, mask, styles).view;
      && SetStyle(once, mask, styles).view == once
      && SetStyle(once, mask, styles).previous == once.styleFlags
  {
  }

  /** Handing back the flags a SetStyle call returned, with a full mask,
      restores the view. */
  lemma SetStyleUndo(v: View, mask: StyleFlags.Flags, styles: StyleFlags.Flags)
    ensures var e := SetStyle(v, mask, styles);
      SetStyle(e.view, 0xFFFF_FFFF, e.previous).view == v
  {
  }

  /** Stores a new caret width and returns the previous one. */
  function SetCaretWidth(v: View, width: Int32): (r: Exchange<Int32>)
    ensures r.previous == v.caretWidth && r.view.caretWidth == width
    ensures r.view.(caretWidth := v.caretWidth) == v
  {
    Exchange(v.caretWidth, v.(caretWidth := width))
  }

  /** Stores a new long-line column and returns the previous one. */
  function SetLongLine(v: View, length: Int32): (r: Exchange<Int32>)
    ensures r.previous == v.longLineLimit && r.view.longLineLimit == length
    ensures r.view.(longLineLimit := v.longLineLimit) == v
  {
    Exchange(v.longLineLimit, v.(longLineLimit := length))
  }

  /** Setting back the value a setter returned restores the view. */
  lemma SettersUndo(v: View, width: Int32, length: Int32)
    ensures var e := SetCaretWidth(v, width); SetCaretWidth(e.view, e.previous).view == v
    ensures var e := SetLongLine(v, length); SetLongLine(e.view, e.previous).view == v
  {
  }
}
