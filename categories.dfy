/**
 * Category folders under `Sorted_Media`: which folder a category number
 * routes to (`copy_file_to_category`) and which number a new folder gets
 * (`create_category_folder`).
 */
module Categories {
  import opened Wrappers
  import opened Text
  import opened SortedTree

  const CategoryPrefix: string := "Category_"

  /** `f"Category_{n}"`. */
  function CategoryName(n: nat): string {
    CategoryPrefix + NatToString(n)
  }

  /** `f"Category_{n}_"`, the prefix of a folder of number `n` with a description. */
  function DescribedPrefix(n: nat): string {
    CategoryName(n) + "_"
  }

  /** `f"Category_{n}_{description}"`. */
  function DescribedName(n: nat, description: string): string {
    DescribedPrefix(n) + description
  }

  /** `x` is listed in `names`, starts with `p`, and no earlier name does. */
  predicate FirstWithPrefixAt(names: seq<string>, p: string, x: string) {
    exists i :: 0 <= i < |names| && names[i] == x && StartsWith(x, p) &&
      (forall j :: 0 <= j < i ==> !StartsWith(names[j], p))
  }

  /** `[f for f in names if f.startswith(p)]`. */
  function WithPrefix(names: seq<string>, p: string): (r: seq<string>)
    ensures forall x :: x in r <==> x in names && StartsWith(x, p)
    ensures r != [] ==> FirstWithPrefixAt(names, p, r[0])
  {
    if names == [] then []
    else
      var rest := WithPrefix(names[1..], p);
      if StartsWith(names[0], p) then [names[0]] + rest
      else
        assert rest != [] ==> FirstWithPrefixAt(names, p, rest[0]) by {
          if rest != [] {
            var i :| 0 <= i < |names[1..]| && names[1..][i] == rest[0] &&
              forall j :: 0 <= j < i ==> !StartsWith(names[1..][j], p);
            assert forall j :: 1 <= j < i + 1 ==> names[j] == names[1..][j - 1];
          }
        }
        rest
  }

  /** The folder a category number routes to: the first listed `Category_<n>_...`, else `Category_<n>`. */
  function ResolveCategory(listing: seq<string>, n: nat): (folder: string)
    ensures (folder == CategoryName(n) && forall j :: 0 <= j < |listing| ==> !StartsWith(listing[j], DescribedPrefix(n)))
         || FirstWithPrefixAt(listing, DescribedPrefix(n), folder)
  {
    var described := WithPrefix(listing, DescribedPrefix(n));
    if described != [] then described[0] else CategoryName(n)
  }

  // ---------------------------------------------------------------------------
  // Numbering

  /** `int(name.split("_")[1])` for a name starting with `Category_`; `None` when that raises `ValueError`. */
  function CategoryNumberOf(name: string): (r: Option<int>)
    ensures r.Some? ==> StartsWith(name, CategoryPrefix)
  {
    if StartsWith(name, CategoryPrefix) then
      assert name[8] == '_';
      ParseInt(SecondField(name, '_'))
    else None
  }

  /** The numbers the allocation loop collects, in listing order. */
  function CategoryNumbers(names: seq<string>): (r: seq<int>)
    ensures |r| <= |names|
  {
    if names == [] then []
    else
      var last := match CategoryNumberOf(names[|names| - 1]) case Some(k) => [k] case None => [];
      CategoryNumbers(names[..|names| - 1]) + last
  }

  /** A number is collected exactly when some listed name parses to it. */
  lemma {:induction false} CategoryNumbersMembers(names: seq<string>, k: int)
    ensures k in CategoryNumbers(names) <==> exists f :: f in names && CategoryNumberOf(f) == Some(k)
    decreases |names|
  {
    if names != [] {
      var init := names[..|names| - 1];
      CategoryNumbersMembers(init, k);
      assert names == init + [names[|names| - 1]];
      assert forall f :: f in names <==> f in init || f == names[|names| - 1];
    }
  }

  /** Both forms of a category folder name carry their number where the allocation loop reads it. */
  lemma NumberOfCategoryName(n: nat, description: string)
    ensures CategoryNumberOf(CategoryName(n)) == Some(n)
    ensures CategoryNumberOf(DescribedName(n, description)) == Some(n)
  {
    var d := NatToString(n);
    NatToStringHasNoNonDigit(n, '_');
    ParseIntOfNatToString(n);
    assert '_' !in "Category";
    assert CategoryName(n) == "Category" + ['_'] + d + [];
    SecondFieldOf("Category", d, [], '_');
    assert DescribedName(n, description) == "Category" + ['_'] + d + (['_'] + description);
    SecondFieldOf("Category", d, ['_'] + description, '_');
  }

  /** Any name a numeric key for `n` could route to by prefix carries the number `n`. */
  lemma {:induction false} NumberOfDescribedFolder(name: string, n: nat)
    requires StartsWith(name, DescribedPrefix(n))
    ensures CategoryNumberOf(name) == Some(n)
  {
    var p := DescribedPrefix(n);
    assert name == p + name[|p|..];
    assert DescribedName(n, name[|p|..]) == name;
    NumberOfCategoryName(n, name[|p|..]);
  }

  /** A routed folder that exists carries the number of the key that chose it. */
  lemma ResolvedFolderNumber(listing: seq<string>, n: nat)
    requires ResolveCategory(listing, n) in listing
    ensures CategoryNumberOf(ResolveCategory(listing, n)) == Some(n)
  {
    var folder := ResolveCategory(listing, n);
    if StartsWith(folder, DescribedPrefix(n)) {
      NumberOfDescribedFolder(folder, n);
    } else {
      NumberOfCategoryName(n, "");
    }
  }

  /** The smallest positive integer missing from `numbers`. */
  predicate IsSmallestFree(next: int, numbers: seq<int>) {
    next >= 1 && next !in numbers && forall k :: 1 <= k < next ==> k in numbers
  }

  lemma SmallestFreeIsUnique(a: int, b: int, numbers: seq<int>)
    requires IsSmallestFree(a, numbers) && IsSmallestFree(b, numbers)
    ensures a == b
  {
  }

  /** Only names starting with `Category_` carry a number, so pre-filtering them changes nothing. */
  lemma NumbersOfCategoryNames(listing: seq<string>, k: int)
    ensures k in CategoryNumbers(WithPrefix(listing, CategoryPrefix)) <==> k in CategoryNumbers(listing)
  {
    CategoryNumbersMembers(WithPrefix(listing, CategoryPrefix), k);
    CategoryNumbersMembers(listing, k);
  }

  /** The `for category in existing_categories` loop of `create_category_folder`. */
  method CollectNumbers(existing: seq<string>) returns (numbers: seq<int>)
    ensures numbers == CategoryNumbers(existing)
  {
    numbers := [];
    for i := 0 to |existing|
      invariant numbers == CategoryNumbers(existing[..i])
    {
      assert existing[..i + 1][..i] == existing[..i];
      var parsed := CategoryNumberOf(existing[i]);
      if parsed.Some? {
        numbers := numbers + [parsed.value];
      }
    }
    assert existing[..|existing|] == existing;
  }

  /** The `while next_category_number in category_numbers` search. */
  method SmallestFree(numbers: seq<int>) returns (next: nat)
    ensures IsSmallestFree(next, numbers)
  {
    next := 1;
    while next in numbers
      invariant next >= 1
      invariant forall k :: 1 <= k < next ==> k in numbers
      decreases |set k | k in numbers && k >= next|
    {
      ghost var above := set k | k in numbers && k >= next;
      ghost var above' := set k | k in numbers && k >= next + 1;
      assert above == above' + {next} && next !in above';
      next := next + 1;
    }
  }

  /** The numbering part of `create_category_folder`: collect the numbers, then count up from 1. */
  method NextCategoryNumber(listing: seq<string>) returns (next: nat)
    ensures IsSmallestFree(next, CategoryNumbers(listing))
  {
    var existing := WithPrefix(listing, CategoryPrefix);
    var numbers := CollectNumbers(existing);
    next := SmallestFree(numbers);
    forall k ensures k in numbers <==> k in CategoryNumbers(listing) {
      NumbersOfCategoryNames(listing, k);
    }
  }

  /**
   * A folder named with the allocated number never collides with a listed
   * name, and once it is added to the listing it is exactly the folder
   * that number routes to.
   */
  lemma NewCategoryIsRoutable(listing: seq<string>, next: nat, description: string)
    requires IsSmallestFree(next, CategoryNumbers(listing))
    ensures DescribedName(next, description) !in listing
    ensures ResolveCategory(listing + [DescribedName(next, description)], next) == DescribedName(next, description)
  {
    var name := DescribedName(next, description);
    var p := DescribedPrefix(next);
    forall f | f in listing ensures !StartsWith(f, p) {
      if StartsWith(f, p) {
        NumberOfDescribedFolder(f, next);
        CategoryNumbersMembers(listing, next);
        assert false;
      }
    }
    var extended := listing + [name];
    assert StartsWith(name, p);
    assert extended[|listing|] == name;
    var folder := ResolveCategory(extended, next);
    assert FirstWithPrefixAt(extended, p, folder);
    var i :| 0 <= i < |extended| && extended[i] == folder && StartsWith(folder, p) &&
      (forall j :: 0 <= j < i ==> !StartsWith(extended[j], p));
    assert forall j :: 0 <= j < |listing| ==> extended[j] in listing;
    assert i == |listing|;
  }
}
