/** The kernel-data-structure demonstration module: at load time it splits
    its `int_str` parameter on spaces, keeps every token that scans as an
    integer in [0, 1000], and stores each kept number in a list, an ordered
    tree, a hash table, a radix tree, an XArray and a 1001-bit bitmap; it
    then tags the odd entries of the radix tree and the XArray. At unload
    time it empties every structure. */
module Kds {
  import opened Wrappers
  import RbTree

  /** The number of bits in `my_bitmap`. */
  const BITMAP_BITS: nat := 1001

  /** The largest number the module keeps. */
  const MAX_NUM: int := 1000

  // ---------------------------------------------------------------------
  // Splitting the parameter: strsep(&p, " ")

  /** The index of the first space in `s`, or |s| when there is none. */
  function FirstSpace(s: string): (i: nat)
    ensures i <= |s|
    ensures forall j :: 0 <= j < i ==> s[j] != ' '
    ensures i < |s| ==> s[i] == ' '
  {
    if s == [] || s[0] == ' ' then 0 else 1 + FirstSpace(s[1..])
  }

  /** One call of `strsep(&p, " ")` on a non-NULL `p`: the token before the
      first space, and what `p` points to afterwards (NULL when the string
      held no space). */
  function Strsep(s: string): (r: (string, Option<string>))
    ensures ' ' !in r.0
    ensures r.1.None? ==> r.0 == s
    ensures r.1.Some? ==> s == r.0 + " " + r.1.value
  {
    var i := FirstSpace(s);
    if i == |s| then (s, None)
    else
      assert s == s[..i] + " " + s[i + 1..];
      (s[..i], Some(s[i + 1..]))
  }

  /** Every token the strsep loop of `kds_init` sees, in order: one per
      space-separated field, empty fields included. */
  function Tokens(s: string): (ts: seq<string>)
    ensures |ts| >= 1
    ensures |ts| == multiset(s)[' '] + 1
    decreases |s|
  {
    var (tok, rest) := Strsep(s);
    assert multiset(tok)[' '] == 0;
    if rest.Some? then
      assert multiset(s) == multiset(tok) + multiset{' '} + multiset(rest.value);
      [tok] + Tokens(rest.value)
    else [tok]
  }

  /** The tokens of what is left after a strsep call: none once `p` is NULL. */
  function Remaining(rest: Option<string>): seq<string>
  {
    if rest.Some? then Tokens(rest.value) else []
  }

  /** Fields joined back together with single spaces. */
  function Join(ts: seq<string>): string
    requires |ts| >= 1
  {
    if |ts| == 1 then ts[0] else ts[0] + " " + Join(ts[1..])
  }

  /** Splitting loses nothing: the tokens hold no space and joining them
      with single spaces gives back the parameter. */
  lemma {:induction false} TokensJoin(s: string)
    ensures Join(Tokens(s)) == s
    ensures forall i :: 0 <= i < |Tokens(s)| ==> ' ' !in Tokens(s)[i]
    decreases |s|
  {
    var (tok, rest) := Strsep(s);
    if rest.Some? {
      TokensJoin(rest.value);
      assert Tokens(s)[1..] == Tokens(rest.value);
    }
  }

  // ---------------------------------------------------------------------
  // Scanning one token: sscanf(token, "%d", &num)

  /** The characters the kernel's `isspace` accepts: the C white space
      and, as its character table marks it, the Latin-1 no-break space
      0xA0. */
  predicate IsSpace(c: char)
  {
    c == ' ' || 9 <= c as int <= 13 || c as int == 0xA0
  }

  predicate IsDigit(c: char)
  {
    '0' <= c <= '9'
  }

  function SkipSpaces(s: string): (t: string)
    ensures |t| <= |s|
    ensures t == [] || !IsSpace(t[0])
  {
    if s != [] && IsSpace(s[0]) then SkipSpaces(s[1..]) else s
  }

  /** What is left after the white space is a suffix of the string. */
  lemma {:induction false} SkipSpacesSuffix(s: string)
    ensures SkipSpaces(s) == s[|s| - |SkipSpaces(s)|..]
  {
    if s != [] && IsSpace(s[0]) {
      SkipSpacesSuffix(s[1..]);
    }
  }

  /** The length of the run of digits that starts `s`. */
  function DigitRun(s: string): (n: nat)
    ensures n <= |s|
    ensures forall j :: 0 <= j < n ==> IsDigit(s[j])
    ensures n < |s| ==> !IsDigit(s[n])
  {
    if s != [] && IsDigit(s[0]) then 1 + DigitRun(s[1..]) else 0
  }

  function DigitValue(c: char): nat
    requires IsDigit(c)
  {
    c as int - '0' as int
  }

  /** The value of a string of decimal digits. */
  function DecimalValue(ds: string): nat
    requires forall j :: 0 <= j < |ds| ==> IsDigit(ds[j])
  {
    if ds == [] then 0
    else DecimalValue(ds[..|ds| - 1]) * 10 + DigitValue(ds[|ds| - 1])
  }

  /** An integer reduced to the 32-bit two's-complement range of a C `int`. */
  function ToInt32(x: int): (r: int)
    ensures -0x8000_0000 <= r < 0x8000_0000
    ensures (r - x) % 0x1_0000_0000 == 0
  {
    var m := x % 0x1_0000_0000;
    if m >= 0x8000_0000 then m - 0x1_0000_0000 else m
  }

  /** `sscanf(token, "%d", &num)` as the kernel's `vsscanf` performs it:
      leading white space is skipped, an optional '-' is taken, at least
      one digit must follow, the run of digits is converted (wrapping to the
      width of `int`) and anything after it is ignored. None stands for a
      return value other than 1. A token that scans holds a digit. */
  function ScanInt(tok: string): (r: Option<int>)
    ensures r.Some? ==> -0x8000_0000 <= r.value < 0x8000_0000
    ensures r.Some? ==> exists j :: 0 <= j < |tok| && IsDigit(tok[j])
  {
    var t := SkipSpaces(tok);
    var neg := t != [] && t[0] == '-';
    var d := if neg then t[1..] else t;
    var n := DigitRun(d);
    if n == 0 then None
    else
      SkipSpacesSuffix(tok);
      assert tok[|tok| - |d|] == d[0];
      var v: int := DecimalValue(d[..n]);
      Some(ToInt32(if neg then -v else v))
  }

  /** The decimal digits of `n`, most significant first. */
  function Digits(n: nat): (ds: string)
    ensures |ds| >= 1
    ensures forall j :: 0 <= j < |ds| ==> IsDigit(ds[j])
    decreases n
  {
    if n < 10 then [('0' as int + n) as char]
    else Digits(n / 10) + [('0' as int + n % 10) as char]
  }

  /** `n` printed in decimal, as `printf("%d")` would. */
  function Format(v: int): string
  {
    if v < 0 then "-" + Digits(-v) else Digits(v)
  }

  lemma {:induction false} DecimalValueOfDigits(n: nat)
    ensures DecimalValue(Digits(n)) == n
    decreases n
  {
    if n >= 10 {
      DecimalValueOfDigits(n / 10);
      var ds := Digits(n);
      assert ds[..|ds| - 1] == Digits(n / 10);
    }
  }

  lemma {:induction false} DigitRunOfDigits(ds: string, rest: string)
    requires forall j :: 0 <= j < |ds| ==> IsDigit(ds[j])
    requires rest == [] || !IsDigit(rest[0])
    ensures DigitRun(ds + rest) == |ds|
    decreases |ds|
  {
    if ds != [] {
      assert (ds + rest)[1..] == ds[1..] + rest;
      DigitRunOfDigits(ds[1..], rest);
    }
  }

  lemma ToInt32InRange(x: int)
    requires -0x8000_0000 <= x < 0x8000_0000
    ensures ToInt32(x) == x
  {
    if x < 0 {
      assert x % 0x1_0000_0000 == x + 0x1_0000_0000;
    }
  }

  /** A run of digits followed by a non-digit scans to the value of the
      digits. */
  lemma {:induction false} ScanDigits(ds: string, rest: string)
    requires |ds| >= 1 && forall j :: 0 <= j < |ds| ==> IsDigit(ds[j])
    requires rest == [] || !IsDigit(rest[0])
    ensures DigitRun(ds + rest) == |ds| && (ds + rest)[..|ds|] == ds
    ensures SkipSpaces(ds + rest) == ds + rest
  {
    DigitRunOfDigits(ds, rest);
    assert (ds + rest)[..|ds|] == ds;
    assert (ds + rest)[0] == ds[0];
  }

  /** Scanning is the inverse of printing: any `int` printed in decimal
      and followed by anything that is not a digit scans back to itself. */
  lemma ScanFormat(v: int, rest: string)
    requires -0x8000_0000 <= v < 0x8000_0000
    requires rest == [] || !IsDigit(rest[0])
    ensures ScanInt(Format(v) + rest) == Some(v)
  {
    if v < 0 {
      ScanNegative(v, rest);
    } else {
      ScanNonNegative(v, rest);
    }
  }

  /** A non-negative int printed in decimal scans back to itself. */
  lemma {:induction false} ScanNonNegative(v: int, rest: string)
    requires 0 <= v < 0x8000_0000
    requires rest == [] || !IsDigit(rest[0])
    ensures ScanInt(Format(v) + rest) == Some(v)
  {
    var ds := Digits(v);
    DecimalValueOfDigits(v);
    ScanDigits(ds, rest);
    ToInt32InRange(v);
    var t := ds + rest;
    assert Format(v) + rest == t;
    assert t[0] == ds[0] && t[0] != '-';
  }

  /** A negative int printed as '-' and its decimal digits scans back to
      itself. */
  lemma {:induction false} ScanNegative(v: int, rest: string)
    requires -0x8000_0000 <= v < 0
    requires rest == [] || !IsDigit(rest[0])
    ensures ScanInt(Format(v) + rest) == Some(v)
  {
    var m: nat := -v;
    var ds := Digits(m);
    DecimalValueOfDigits(m);
    ScanDigits(ds, rest);
    ToInt32InRange(v);
    assert Format(v) + rest == "-" + (ds + rest);
    ScanMinus(ds + rest);
  }

  /** A '-' in front of a run of digits: the scan negates their value. */
  lemma ScanMinus(d: string)
    requires DigitRun(d) > 0
    ensures ScanInt("-" + d) == Some(ToInt32(-(DecimalValue(d[..DigitRun(d)]) as int)))
  {
    var t := "-" + d;
    assert t[0] == '-' && !IsSpace(t[0]);
    assert SkipSpaces(t) == t;
    assert t[1..] == d;
  }

  // ---------------------------------------------------------------------
  // The filter of the kds_init loop

  /** The number a token contributes: its scanned value when that lies in
      [0, 1000]. */
  function Accept(tok: string): (r: Option<int>)
    ensures r.Some? <==> ScanInt(tok).Some? && 0 <= ScanInt(tok).value <= MAX_NUM
    ensures r.Some? ==> r == ScanInt(tok)
  {
    match ScanInt(tok)
    case Some(num) => if 0 <= num <= MAX_NUM then Some(num) else None
    case None => None
  }

  /** What one token adds to the list: its number, or nothing. */
  function Kept(tok: string): (vs: seq<int>)
    ensures |vs| <= 1
    ensures forall i :: 0 <= i < |vs| ==> 0 <= vs[i] <= MAX_NUM
  {
    match Accept(tok)
    case Some(v) => [v]
    case None => []
  }

  /** The numbers kept from a token sequence, in order, repeats included. */
  function Accepted(ts: seq<string>): (vs: seq<int>)
    ensures |vs| <= |ts|
    ensures forall i :: 0 <= i < |vs| ==> 0 <= vs[i] <= MAX_NUM
  {
    if ts == [] then [] else Kept(ts[0]) + Accepted(ts[1..])
  }

  /** A number is kept exactly when some token scans to it. */
  lemma {:induction false} AcceptedMembers(ts: seq<string>, v: int)
    ensures v in Accepted(ts) <==> exists i :: 0 <= i < |ts| && Accept(ts[i]) == Some(v)
  {
    if ts != [] {
      AcceptedMembers(ts[1..], v);
      if v in Accepted(ts[1..]) {
        var i :| 0 <= i < |ts[1..]| && Accept(ts[1..][i]) == Some(v);
        assert Accept(ts[i + 1]) == Some(v);
      }
      if i :| 0 <= i < |ts| && Accept(ts[i]) == Some(v) {
        if i > 0 {
          assert Accept(ts[1..][i - 1]) == Some(v);
        }
      }
    }
  }

  /** Keeping distributes over concatenation of token sequences. */
  lemma {:induction false} AcceptedAppend(a: seq<string>, b: seq<string>)
    ensures Accepted(a + b) == Accepted(a) + Accepted(b)
  {
    if a == [] {
      assert a + b == b;
    } else {
      assert (a + b)[0] == a[0];
      assert (a + b)[1..] == a[1..] + b;
      AcceptedAppend(a[1..], b);
      assert Accepted(a + b) == Kept(a[0]) + (Accepted(a[1..]) + Accepted(b));
    }
  }

  /** One strsep step peels the first token off the kept numbers. */
  lemma AcceptedStep(s: string)
    ensures Accepted(Remaining(Some(s))) == Kept(Strsep(s).0) + Accepted(Remaining(Strsep(s).1))
  {
    var ts := Tokens(s);
    assert ts == [Strsep(s).0] + Remaining(Strsep(s).1);
    assert ts[0] == Strsep(s).0 && ts[1..] == Remaining(Strsep(s).1);
  }

  function Elems(s: seq<int>): set<int>
  {
    set x | x in s
  }

  lemma ElemsAppend(a: seq<int>, b: seq<int>)
    ensures Elems(a + b) == Elems(a) + Elems(b)
  {
  }

  /** The indices whose stored number is odd (`*item & 1` on a
      two's-complement `int` is the remainder modulo 2). */
  function OddEntries(m: map<int, int>): set<int>
  {
    set k | k in m && m[k] % 2 == 1
  }

  /** Where every number sits at its own index, the odd indices are the
      entries holding odd numbers. */
  lemma OddIndices(m: map<int, int>)
    requires forall k :: k in m ==> m[k] == k
    ensures (set k | k in m && k % 2 == 1) == OddEntries(m)
  {
  }

  /** Storing what a string's tokens accept is storing what its first
      token accepts, then what the tokens after it accept. */
  lemma StoreStep(c: Contents, s: string)
    ensures Store(c, Accepted(Remaining(Some(s))))
         == Store(Store(c, Kept(Strsep(s).0)), Accepted(Remaining(Strsep(s).1)))
  {
    AcceptedStep(s);
    StoreAppend(c, Kept(Strsep(s).0), Accepted(Remaining(Strsep(s).1)));
  }

  /** What the module's structures hold, as values: the list, the keys of
      the tree, the hash table's nodes, the indices of the radix tree and
      of the XArray, and the bitmap. */
  datatype Contents = Contents(list: seq<int>, treeKeys: set<int>, hash: multiset<int>,
                               radixKeys: set<int>, xarrayKeys: set<int>, bits: seq<bool>)

  /** The contents after the numbers `vs` are stored one after another:
      appended to the list and the hash table, added to the key sets, and
      their bits set. */
  function Store(c: Contents, vs: seq<int>): (d: Contents)
    ensures |d.list| == |c.list| + |vs| && |d.hash| == |c.hash| + |vs| && |d.bits| == |c.bits|
  {
    Contents(c.list + vs, c.treeKeys + Elems(vs), c.hash + multiset(vs),
             c.radixKeys + Elems(vs), c.xarrayKeys + Elems(vs),
             seq(|c.bits|, i requires 0 <= i < |c.bits| => c.bits[i] || i in vs))
  }

  /** The contents after one number is stored, field by field. */
  lemma StoredOne(c: Contents, d: Contents, num: int)
    requires d.list == c.list + [num] && d.treeKeys == c.treeKeys + {num}
    requires d.hash == c.hash + multiset{num}
    requires d.radixKeys == c.radixKeys + {num} && d.xarrayKeys == c.xarrayKeys + {num}
    requires |d.bits| == |c.bits|
    requires forall i :: 0 <= i < |c.bits| ==> d.bits[i] == (c.bits[i] || i == num)
    ensures d == Store(c, [num])
  {
    assert Elems([num]) == {num};
    assert d.bits == Store(c, [num]).bits;
  }

  /** Storing no number changes nothing. */
  lemma StoreNothing(c: Contents)
    ensures Store(c, []) == c
  {
    assert Elems([]) == {};
    assert c.list + [] == c.list;
    assert c.bits == Store(c, []).bits;
  }

  /** Storing two runs of numbers is storing their concatenation. */
  lemma StoreAppend(c: Contents, a: seq<int>, b: seq<int>)
    ensures Store(Store(c, a), b) == Store(c, a + b)
  {
    ElemsAppend(a, b);
    assert c.list + a + b == c.list + (a + b);
  }

  /** A non-empty set has a member to pick. */
  lemma HasMember(s: set<int>)
    requires s != {}
    ensures exists x :: x in s
  {
    if forall y :: y !in s {
      assert false;
    }
  }

  // ---------------------------------------------------------------------
  // The module's state

  class KdsModule {
    /** int_list, in insertion order. */
    var list: seq<int>
    /** mytree, an ordered tree of distinct numbers. */
    var tree: RbTree.Tree<()>
    /** myhashtable, one node per insertion. */
    var hash: multiset<int>
    /** my_radix_tree: index to stored number, and the indices tagged 1. */
    var radix: map<int, int>
    var radixTags: set<int>
    /** my_xarray: index to stored number, and the indices marked XA_MARK_0. */
    var xarray: map<int, int>
    var xarrayMarks: set<int>
    /** my_bitmap, 1001 bits. */
    const bitmap: array<bool>

    /** Both index structures store every number at the index equal to
        it, tags and marks sit on stored indices only, and the tree keeps
        search order. */
    ghost predicate Valid()
      reads this
    {
      && bitmap.Length == BITMAP_BITS
      && RbTree.Ordered(tree)
      && (forall k :: k in radix ==> radix[k] == k)
      && (forall k :: k in xarray ==> xarray[k] == k)
      && radixTags <= radix.Keys
      && xarrayMarks <= xarray.Keys
    }

    /** The structures' contents as values. */
    ghost function Held(): Contents
      reads this, bitmap
    {
      Contents(list, RbTree.Keys(tree), hash, radix.Keys, xarray.Keys, bitmap[..])
    }

    /** The state of the module right after it is loaded, before
        `kds_init` runs: every structure is empty and every bit clear. */
    constructor ()
      ensures Valid() && fresh(bitmap)
      ensures list == [] && tree == RbTree.Leaf && hash == multiset{}
      ensures radix == map[] && radixTags == {} && xarray == map[] && xarrayMarks == {}
      ensures forall i :: 0 <= i < bitmap.Length ==> !bitmap[i]
      ensures Held() == Empty()
    {
      list, tree, hash := [], RbTree.Leaf, multiset{};
      radix, radixTags, xarray, xarrayMarks := map[], {}, map[], {};
      bitmap := new bool[BITMAP_BITS](_ => false);
      new;
      assert bitmap[..] == Empty().bits;
    }

    /** `rb_insert`: descend from the root by value; an equal value ends
        the walk and returns 0 with the tree unchanged, otherwise the new
        node is linked where the walk fell off the tree and 0 is returned
        as well. */
    method RbInsert(value: int) returns (code: int)
      requires Valid()
      modifies this`tree
      ensures Valid()
      ensures code == 0
      ensures tree == RbTree.Insert(old(tree), value, ())
    {
      var node := tree;
      while node.Node?
        invariant RbTree.Ordered(node)
        invariant (value in RbTree.Keys(tree)) <==> (value in RbTree.Keys(node))
        decreases node
      {
        if node.key < value {
          node := node.right;
        } else if node.key > value {
          node := node.left;
        } else {
          return 0;
        }
      }
      tree := RbTree.Insert(tree, value, ());
      return 0;
    }

    /** The body of the `kds_init` loop for one token: if it scans to a
        number in [0, 1000], append that number to the list, insert it
        into the tree, the hash table, the radix tree (which refuses an
        index it already has) and the XArray (which overwrites), and set
        its bit. */
    method IngestToken(token: string)
      requires Valid()
      modifies this`list, this`tree, this`hash, this`radix, this`xarray, bitmap
      ensures Valid()
      ensures Held() == Store(old(Held()), Kept(token))
    {
      var parsed := ScanInt(token);
      if parsed.Some? && parsed.value >= 0 && parsed.value <= MAX_NUM {
        assert Kept(token) == [parsed.value];
        StoreNumber(parsed.value);
      } else {
        assert Kept(token) == [];
        StoreNothing(old(Held()));
      }
    }

    /** One accepted number goes into every structure: appended to the
        list, inserted into the tree and the hash table, added to the radix
        tree (which refuses an index it already has) and the XArray (which
        overwrites), and its bit set. */
    method StoreNumber(num: int)
      requires Valid() && 0 <= num <= MAX_NUM
      modifies this`list, this`tree, this`hash, this`radix, this`xarray, bitmap
      ensures Valid()
      ensures Held() == Store(old(Held()), [num])
    {
      ghost var before := Held();
      AddToCollections(num);
      AddToIndices(num);
      StoredOne(before, Held(), num);
    }

    /** `list_add_tail`, `rb_insert` and `hash_add` of one number. */
    method AddToCollections(num: int)
      requires Valid()
      modifies this`list, this`tree, this`hash
      ensures Valid()
      ensures list == old(list) + [num] && hash == old(hash) + multiset{num}
      ensures RbTree.Keys(tree) == RbTree.Keys(old(tree)) + {num}
    {
      list := list + [num];
      var _ := RbInsert(num);
      hash := hash + multiset{num};
    }

    /** `radix_tree_insert` (refused for an index already present),
        `xa_store` and `set_bit` of one number. */
    method AddToIndices(num: int)
      requires Valid() && 0 <= num <= MAX_NUM
      modifies this`radix, this`xarray, bitmap
      ensures Valid()
      ensures radix.Keys == old(radix.Keys) + {num} && xarray.Keys == old(xarray.Keys) + {num}
      ensures forall i :: 0 <= i < bitmap.Length ==> bitmap[i] == (old(bitmap[i]) || i == num)
    {
      if num !in radix {
        radix := radix[num := num];
      }
      xarray := xarray[num := num];
      bitmap[num] := true;
    }

    /** `radix_tree_tag_odds`: walk every index of the radix tree and tag
        the odd ones. */
    method RadixTagOdds()
      requires Valid()
      modifies this`radixTags
      ensures Valid()
      ensures radixTags == old(radixTags) + set k | k in radix && k % 2 == 1
    {
      var todo := radix.Keys;
      while todo != {}
        invariant Valid()
        invariant todo <= radix.Keys
        invariant radixTags == old(radixTags) + set k | k in radix && k !in todo && k % 2 == 1
        decreases todo
      {
        HasMember(todo);
        var index :| index in todo;
        if index % 2 == 1 {
          radixTags := radixTags + {index};
        }
        todo := todo - {index};
      }
    }

    /** `xarray_tag_odds`: walk every entry of the XArray and mark those
        whose stored number is odd. */
    method XarrayTagOdds()
      requires Valid()
      modifies this`xarrayMarks
      ensures Valid()
      ensures xarrayMarks == old(xarrayMarks) + OddEntries(xarray)
    {
      var todo := xarray.Keys;
      while todo != {}
        invariant Valid()
        invariant todo <= xarray.Keys
        invariant xarrayMarks == old(xarrayMarks) + set k | k in xarray && k !in todo && xarray[k] % 2 == 1
        decreases todo
      {
        HasMember(todo);
        var index :| index in todo;
        if xarray[index] % 2 == 1 {
          xarrayMarks := xarrayMarks + {index};
        }
        todo := todo - {index};
      }
    }

    /** The strsep loop of `kds_init`: every token of `intStr`, in order,
        goes through IngestToken. */
    method IngestAll(intStr: string)
      requires Valid()
      modifies this`list, this`tree, this`hash, this`radix, this`xarray, bitmap
      ensures Valid()
      ensures Held() == Store(old(Held()), Accepted(Tokens(intStr)))
    {
      ghost var goal := Store(Held(), Accepted(Tokens(intStr)));
      var rest: Option<string> := Some(intStr);
      while rest.Some?
        invariant Valid()
        invariant goal == Store(Held(), Accepted(Remaining(rest)))
        decreases if rest.Some? then |rest.value| + 1 else 0
      {
        var (token, next) := Strsep(rest.value);
        StoreStep(Held(), rest.value);
        IngestToken(token);
        rest := next;
      }
      StoreNothing(Held());
    }

    /** `kds_init`: the strsep loop over `intStr`, then the odd-tagging of
        the radix tree and the XArray. */
    method Init(intStr: string)
      requires Valid()
      modifies this, bitmap
      ensures Valid()
      ensures Held() == Store(old(Held()), Accepted(Tokens(intStr)))
      ensures radixTags == old(radixTags) + set k | k in radix && k % 2 == 1
      ensures xarrayMarks == old(xarrayMarks) + OddEntries(xarray)
    {
      IngestAll(intStr);
      RadixTagOdds();
      XarrayTagOdds();
    }

    /** `bitmap_zero(my_bitmap, 1001)`. */
    method BitmapZero()
      modifies bitmap
      ensures forall i :: 0 <= i < bitmap.Length ==> !bitmap[i]
    {
      for i := 0 to bitmap.Length
        invariant forall j :: 0 <= j < i ==> !bitmap[j]
      {
        bitmap[i] := false;
      }
    }

    /** The first loop of `kds_exit`: delete the list's nodes one by one. */
    method ListClear()
      requires Valid()
      modifies this`list
      ensures Valid() && list == []
    {
      while list != []
        invariant Valid()
        decreases |list|
      {
        list := list[1..];
      }
    }

    /** The second loop of `kds_exit`: erase `rb_first` until the tree is
        empty. */
    method TreeErase()
      requires Valid()
      modifies this`tree
      ensures Valid() && tree == RbTree.Leaf
    {
      while tree.Node?
        invariant Valid()
        decreases RbTree.Size(tree)
      {
        tree := RbTree.RemoveMin(tree);
      }
    }

    /** The radix-tree loop of `kds_exit`: delete every index; a deleted
        index loses its tag. */
    method RadixClear()
      requires Valid()
      modifies this`radix, this`radixTags
      ensures Valid() && radix == map[] && radixTags == {}
    {
      while radix != map[]
        invariant Valid()
        decreases |radix.Keys|
      {
        HasMember(radix.Keys);
        var index :| index in radix;
        radix := radix - {index};
        radixTags := radixTags - {index};
      }
    }

    /** `xarray_clear`: erase every entry; an erased entry loses its mark. */
    method XarrayClear()
      requires Valid()
      modifies this`xarray, this`xarrayMarks
      ensures Valid() && xarray == map[] && xarrayMarks == {}
    {
      while xarray != map[]
        invariant Valid()
        decreases |xarray.Keys|
      {
        HasMember(xarray.Keys);
        var index :| index in xarray;
        xarray := xarray - {index};
        xarrayMarks := xarrayMarks - {index};
      }
    }

    /** `kds_exit`: empty the list, the tree, the hash table, the radix
        tree and the XArray, and clear the bitmap. */
    method Exit()
      requires Valid()
      modifies this, bitmap
      ensures Valid()
      ensures list == [] && tree == RbTree.Leaf && hash == multiset{}
      ensures radix == map[] && radixTags == {} && xarray == map[] && xarrayMarks == {}
      ensures forall i :: 0 <= i < bitmap.Length ==> !bitmap[i]
    {
      ListClear();
      TreeErase();
      hash := multiset{};
      RadixClear();
      XarrayClear();
      BitmapZero();
    }
  }

  /** The contents of a module that has just been loaded: nothing stored,
      every bit clear. */
  function Empty(): (c: Contents)
    ensures |c.bits| == BITMAP_BITS
    ensures forall i :: 0 <= i < BITMAP_BITS ==> !c.bits[i]
  {
    Contents([], {}, multiset{}, {}, {}, seq(BITMAP_BITS, _ => false))
  }

  /** What `kds_init` leaves behind in a freshly loaded module: the list is
      the accepted numbers in input order, the tree, the radix tree and the
      XArray hold exactly the distinct accepted numbers, every one in
      [0, 1000], and bit i is set exactly when i was accepted. */
  lemma LoadedContents(s: string)
    ensures var vs := Accepted(Tokens(s));
            var c := Store(Empty(), vs);
            && c.list == vs
            && c.hash == multiset(vs)
            && c.treeKeys == c.radixKeys == c.xarrayKeys == Elems(vs)
            && (forall v :: v in c.treeKeys ==> 0 <= v <= MAX_NUM)
            && |c.bits| == BITMAP_BITS
            && (forall i :: 0 <= i < BITMAP_BITS ==> (c.bits[i] <==> i in vs))
  {
    StoredFromEmpty(Accepted(Tokens(s)));
  }

  /** Storing numbers in [0, 1000] into the empty contents. */
  lemma StoredFromEmpty(vs: seq<int>)
    requires forall i :: 0 <= i < |vs| ==> 0 <= vs[i] <= MAX_NUM
    ensures var c := Store(Empty(), vs);
            && c.list == vs
            && c.hash == multiset(vs)
            && c.treeKeys == c.radixKeys == c.xarrayKeys == Elems(vs)
            && (forall v :: v in c.treeKeys ==> 0 <= v <= MAX_NUM)
            && |c.bits| == BITMAP_BITS
            && (forall i :: 0 <= i < BITMAP_BITS ==> (c.bits[i] <==> i in vs))
  {
    var e := Empty();
    var c := Store(e, vs);
    assert c.list == [] + vs == vs;
    assert c.hash == multiset{} + multiset(vs);
    assert c.treeKeys == {} + Elems(vs);
    forall i | 0 <= i < BITMAP_BITS
      ensures c.bits[i] <==> i in vs
    {
      assert !e.bits[i];
    }
  }

  /** Loading the module with parameter `intStr`: the constructor's empty
      state, then `kds_init`. The tree's in-order walk lists the distinct
      accepted numbers in strictly ascending order, and the tags and marks
      sit exactly on the odd numbers. */
  method Load(intStr: string) returns (m: KdsModule)
    ensures fresh(m) && fresh(m.bitmap) && m.Valid()
    ensures m.Held() == Store(Empty(), Accepted(Tokens(intStr)))
    ensures RbTree.KeysOf(RbTree.InOrder(m.tree)) == Elems(Accepted(Tokens(intStr)))
    ensures RbTree.AscendingKeys(RbTree.InOrder(m.tree))
    ensures m.radixTags == OddEntries(m.radix)
    ensures m.xarrayMarks == OddEntries(m.xarray)
  {
    m := new KdsModule();
    m.Init(intStr);
    LoadedShape(m.Held(), m.tree, m.radix, m.radixTags, m.xarray, m.xarrayMarks, Accepted(Tokens(intStr)));
  }

  /** What a loaded module's state says about its tree and its tags:
      the in-order walk and the odd entries. */
  lemma LoadedShape(h: Contents, t: RbTree.Tree<()>, radix: map<int, int>, tags: set<int>,
                    xarray: map<int, int>, marks: set<int>, vs: seq<int>)
    requires h == Store(Empty(), vs) && h.treeKeys == RbTree.Keys(t) && RbTree.Ordered(t)
    requires forall k :: k in radix ==> radix[k] == k
    requires tags == {} + set k | k in radix && k % 2 == 1
    requires marks == {} + OddEntries(xarray)
    ensures RbTree.KeysOf(RbTree.InOrder(t)) == Elems(vs)
    ensures RbTree.AscendingKeys(RbTree.InOrder(t))
    ensures tags == OddEntries(radix)
    ensures marks == OddEntries(xarray)
  {
    assert h.treeKeys == {} + Elems(vs);
    OddIndices(radix);
    RbTree.InOrderKeys(t);
    RbTree.InOrderAscending(t);
  }
}
