/**
 * Classification of a dotted path against one node name
 * (`ComparePath::cmp` in src/console.rs).
 *
 * Rust strings are UTF-8 byte strings; here a string is a `seq<char>`.
 * Because `.` is a single byte and UTF-8 is prefix-free, "equal",
 * "name followed by '.'" and "neither" coincide at both levels.
 */
module ComparePath {

  /** The three outcomes; `Part` carries the remainder after the separator. */
  datatype ComparePath = False | True | Part(tail: string)

  /** The path continues past `name` with a separator: `path == name + "." + tail`. */
  predicate Continues(path: string, name: string)
  {
    |path| > |name| && path[..|name|] == name && path[|name|] == '.'
  }

  /**
   * Looks at the path's character at index `|name|`: a `.` there with `name`
   * as prefix is a partial match; any other character is no match; past the
   * end of the path, only equality is a match.
   */
  function Cmp(path: string, name: string): (r: ComparePath)
    ensures r == True <==> path == name
    ensures r.Part? <==> Continues(path, name)
    ensures r.Part? ==> r.tail == path[|name| + 1..] && name + "." + r.tail == path
    ensures r == False <==> path != name && !Continues(path, name)
  {
    if |name| < |path| then
      if path[|name|] == '.' then
        if path[..|name|] == name then
          assert name + "." + path[|name| + 1..] == path by {
            assert path == path[..|name|] + [path[|name|]] + path[|name| + 1..];
          }
          Part(path[|name| + 1..])
        else False
      else False
    else if path == name then True else False
  }

  /** A partial match with tail `t` happens exactly when `path` is `name`, a dot, then `t`. */
  lemma CmpPartIff(path: string, name: string, t: string)
    ensures Cmp(path, name) == Part(t) <==> path == name + "." + t
  {
    if path == name + "." + t {
      assert path[..|name|] == name;
      assert path[|name|] == '.';
      assert path[|name| + 1..] == t;
    }
  }

  /** The degenerate-case table of the crate's own unit test. */
  lemma CmpTable()
    ensures Cmp("foo", "foo") == True
    ensures Cmp("foo.bar", "foo") == Part("bar")
    ensures Cmp("foo.bar", "foo.bar") == True
    ensures Cmp("foo.bar.baz", "foo.bar") == Part("baz")
    ensures Cmp("fooz", "foo") == False
    ensures Cmp("foo.bar.baz", "bar.baz") == False
    ensures Cmp("foo", "foo.bar") == False
    ensures Cmp("foo.", "foo") == Part("")
    ensures Cmp("foo.", "foo.") == True
    ensures Cmp("foo", "foo.") == False
    ensures Cmp("", "") == True
    ensures Cmp(".", "") == Part("")
    ensures Cmp(".", ".") == True
    ensures Cmp("", ".") == False
    ensures Cmp(".foo", "foo") == False
    ensures Cmp(".foo", ".foo") == True
    ensures Cmp("foo", ".foo") == False
  {
    CmpPartIff("foo.bar", "foo", "bar");
    CmpPartIff("foo.bar.baz", "foo.bar", "baz");
    CmpPartIff("foo.", "foo", "");
    CmpPartIff(".", "", "");
    assert "foo.bar.baz"[..7] != "bar.baz";
  }
}
