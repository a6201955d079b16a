/**
 * The geometric value types of data.py. Each attribute is optional: the
 * constructor sets only the ones it is given, and an object counts as
 * empty until one is set. Python floats are reals here, and Python's
 * `str()` of a float is left uninterpreted: it is the `show` parameter of
 * the rendering functions.
 */
module Data {
  import opened Wrappers
  import opened Text

  /** An axis-aligned box given by its west, south, east and north edges. */
  class BoundingBox {
    var W: Option<real>
    var S: Option<real>
    var E: Option<real>
    var N: Option<real>
    var empty: bool

    /** The box is empty exactly when no edge is set. */
    predicate Valid()
      reads this
    {
      empty <==> W.None? && S.None? && E.None? && N.None?
    }

    /** Every edge is set. */
    predicate Complete()
      reads this
    {
      W.Some? && S.Some? && E.Some? && N.Some?
    }

    /**
     * Sets each edge that is supplied, and only those; supplying any edge
     * makes the box non-empty. Edges are not checked against each other.
     */
    constructor (W: Option<real>, S: Option<real>, E: Option<real>, N: Option<real>)
      ensures this.W == W && this.S == S && this.E == E && this.N == N
      ensures empty <==> W.None? && S.None? && E.None? && N.None?
      ensures Valid()
    {
      this.W, this.S, this.E, this.N := None, None, None, None;
      empty := true;
      new;
      if W.Some? {
        this.W := W;
        empty := false;
      }
      if S.Some? {
        this.S := S;
        empty := false;
      }
      if E.Some? {
        this.E := E;
        empty := false;
      }
      if N.Some? {
        this.N := N;
        empty := false;
      }
    }

    /**
     * `str()` of the box: "[]" when empty, the labelled edges otherwise. A
     * non-empty box must have all four edges set, or the attribute lookup fails.
     */
    function ToString(show: real -> string): (r: string)
      reads this
      requires !empty ==> Complete()
      ensures r == EmptyBoxText <==> empty
      ensures Valid() ==> (r == EmptyBoxText <==> W.None? && S.None? && E.None? && N.None?)
    {
      if empty then EmptyBoxText
      else BoxText(show(W.value), show(S.value), show(E.value), show(N.value))
    }
  }

  const EmptyBoxText := "[]"
  const WestLabel := "W: "
  const SouthLabel := " S: "
  const EastLabel := " E: "
  const NorthLabel := " N: "

  /** The labelled layout of a non-empty box's edge texts. */
  function BoxText(w: string, s: string, e: string, n: string): (r: string)
    ensures StartsWith(r, WestLabel)
  {
    WestLabel + (w + (SouthLabel + (s + (EastLabel + (e + (NorthLabel + n))))))
  }

  /** Reads the four edge texts back out of a box's labelled layout. */
  function ReadBox(text: string): Option<(string, string, string, string)>
  {
    if !StartsWith(text, WestLabel) then None
    else
      var (w, t1) := SplitAt(text[|WestLabel|..], ' ');
      if !StartsWith(t1, SouthLabel) then None
      else
        var (s, t2) := SplitAt(t1[|SouthLabel|..], ' ');
        if !StartsWith(t2, EastLabel) then None
        else
          var (e, t3) := SplitAt(t2[|EastLabel|..], ' ');
          if !StartsWith(t3, NorthLabel) then None
          else Some((w, s, e, t3[|NorthLabel|..]))
  }

  /** Reads one edge text that runs up to the next label. */
  lemma ReadField(field: string, sep: string, rest: string)
    requires ' ' !in field && sep != [] && sep[0] == ' '
    ensures SplitAt(field + (sep + rest), ' ') == (field, sep + rest)
    ensures StartsWith(sep + rest, sep) && (sep + rest)[|sep|..] == rest
  {
    SplitAtJoin(field, sep + rest, ' ');
    StartsWithAppend(sep, rest);
  }

  /**
   * The layout loses nothing: when the first three edge texts contain no
   * space, as Python's float texts never do, all four read back in order.
   */
  lemma ReadBoxText(w: string, s: string, e: string, n: string)
    requires ' ' !in w && ' ' !in s && ' ' !in e
    ensures ReadBox(BoxText(w, s, e, n)) == Some((w, s, e, n))
  {
    var t3 := NorthLabel + n;
    var t2 := EastLabel + (e + t3);
    var t1 := SouthLabel + (s + t2);
    var text := WestLabel + (w + t1);
    assert BoxText(w, s, e, n) == text;
    assert StartsWith(text, WestLabel) && text[|WestLabel|..] == w + t1 by {
      StartsWithAppend(WestLabel, w + t1);
    }
    ReadField(w, SouthLabel, s + t2);
    ReadField(s, EastLabel, e + t3);
    ReadField(e, NorthLabel, n);
  }

  /** The reader accepts nothing but the labelled layout: whatever it reads, the text is that layout. */
  lemma ReadBoxOnlyLayout(text: string)
    ensures ReadBox(text).Some? ==>
      var v := ReadBox(text).value; text == BoxText(v.0, v.1, v.2, v.3)
  {
    if ReadBox(text).Some? {
      var t0 := text[|WestLabel|..];
      assert text == WestLabel + t0;
      var (w, t1) := SplitAt(t0, ' ');
      var u1 := t1[|SouthLabel|..];
      assert t1 == SouthLabel + u1;
      var (s, t2) := SplitAt(u1, ' ');
      var u2 := t2[|EastLabel|..];
      assert t2 == EastLabel + u2;
      var (e, t3) := SplitAt(u2, ' ');
      var n := t3[|NorthLabel|..];
      assert t3 == NorthLabel + n;
      assert ReadBox(text) == Some((w, s, e, n));
    }
  }

  /**
   * The text of a box tells whether it is empty, and when it is not, gives
   * back the texts of W, S, E and N in that order.
   */
  lemma ReadBoxToString(b: BoundingBox, show: real -> string)
    requires !b.empty ==> b.Complete()
    requires !b.empty ==> ' ' !in show(b.W.value) && ' ' !in show(b.S.value) && ' ' !in show(b.E.value)
    ensures b.empty ==> ReadBox(b.ToString(show)) == None
    ensures !b.empty ==>
      ReadBox(b.ToString(show)) == Some((show(b.W.value), show(b.S.value), show(b.E.value), show(b.N.value)))
  {
    if !b.empty {
      ReadBoxText(show(b.W.value), show(b.S.value), show(b.E.value), show(b.N.value));
    }
  }

  /** A point given by its two coordinates. */
  class Coordinate {
    var x: Option<real>
    var y: Option<real>
    var empty: bool

    /** The point is empty exactly when no coordinate is set. */
    predicate Valid()
      reads this
    {
      empty <==> x.None? && y.None?
    }

    /** Sets each coordinate that is supplied, and only those; supplying either makes the point non-empty. */
    constructor (x: Option<real>, y: Option<real>)
      ensures this.x == x && this.y == y
      ensures empty <==> x.None? && y.None?
      ensures Valid()
    {
      this.x, this.y := None, None;
      empty := true;
      new;
      if x.Some? {
        this.x := x;
        empty := false;
      }
      if y.Some? {
        this.y := y;
        empty := false;
      }
    }

    /**
     * `str()` of the point: "()" when empty, the parenthesised pair
     * otherwise. A non-empty point must have both coordinates set.
     */
    function ToString(show: real -> string): (r: string)
      reads this
      requires !empty ==> x.Some? && y.Some?
      ensures r == EmptyCoordinateText <==> empty
      ensures Valid() ==> (r == EmptyCoordinateText <==> x.None? && y.None?)
    {
      if empty then EmptyCoordinateText
      else CoordinateText(show(x.value), show(y.value))
    }
  }

  const EmptyCoordinateText := "()"
  const CoordinateSeparator := ", "

  /** The parenthesised layout of a point's coordinate texts. */
  function CoordinateText(x: string, y: string): (r: string)
    ensures |r| >= 4 && r[0] == '(' && r[|r| - 1] == ')'
  {
    "(" + (x + (CoordinateSeparator + (y + ")")))
  }

  /** Reads the two coordinate texts back out of a point's parenthesised layout. */
  function ReadCoordinate(text: string): Option<(string, string)>
  {
    if |text| < 2 || text[0] != '(' || text[|text| - 1] != ')' then None
    else
      var (x, rest) := SplitAt(text[1..|text| - 1], ',');
      if !StartsWith(rest, CoordinateSeparator) then None
      else Some((x, rest[|CoordinateSeparator|..]))
  }

  /**
   * The layout loses nothing: when the x text contains no comma, as
   * Python's float texts never do, both coordinates read back in order.
   */
  lemma ReadCoordinateText(x: string, y: string)
    requires ',' !in x
    ensures ReadCoordinate(CoordinateText(x, y)) == Some((x, y))
  {
    var text := CoordinateText(x, y);
    var rest := CoordinateSeparator + y;
    assert text[1..|text| - 1] == x + rest;
    SplitAtJoin(x, rest, ',');
    StartsWithAppend(CoordinateSeparator, y);
  }

  /** The reader accepts nothing but the parenthesised layout: whatever it reads, the text is that layout. */
  lemma ReadCoordinateOnlyLayout(text: string)
    ensures ReadCoordinate(text).Some? ==>
      var v := ReadCoordinate(text).value; text == CoordinateText(v.0, v.1)
  {
    if ReadCoordinate(text).Some? {
      var inner := text[1..|text| - 1];
      var (x, rest) := SplitAt(inner, ',');
      var y := rest[|CoordinateSeparator|..];
      assert ReadCoordinate(text) == Some((x, y));
      assert rest == CoordinateSeparator + y;
      assert inner == x + (CoordinateSeparator + y);
      assert text == "(" + (inner + ")") by {
        assert text[0] == '(' && text[|text| - 1] == ')';
      }
      assert inner + ")" == x + (CoordinateSeparator + (y + ")"));
    }
  }

  /**
   * The text of a point tells whether it is empty, and when it is not, gives
   * back the texts of x and y in that order.
   */
  lemma ReadCoordinateToString(c: Coordinate, show: real -> string)
    requires !c.empty ==> c.x.Some? && c.y.Some? && ',' !in show(c.x.value)
    ensures c.empty ==> ReadCoordinate(c.ToString(show)) == None
    ensures !c.empty ==> ReadCoordinate(c.ToString(show)) == Some((show(c.x.value), show(c.y.value)))
  {
    if c.empty {
      assert SplitAt([], ',') == ([], []);
    } else {
      ReadCoordinateText(show(c.x.value), show(c.y.value));
    }
  }
}
