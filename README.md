# nytl: the Line simplex and the string helpers, modelled in Dafny

This project models two small parts of the nytl C++ utility library.

**`Line<D, P>`**, the order-1 specialisation of `Simplex<D, P, N>` in
`nytl/line.hpp`. It is a segment between two endpoint vectors `a` and `b`
of dimension `D`. Every member is a `const` expression over those endpoints.
A point is a `seq<real>` (module `Vectors`, file `vec.dfy`), so the
midpoint and the per-dimension gradient are exact. The segment is the
datatype `Lines.Line(a, b)` (file `line.dfy`). Its constructor is the
source's two-argument constructor: it stores `xa` as `a` and `xb` as `b`.
`Valid` says both endpoints have the same dimension `D`. Each `const`
member of the class is a function over the line. Lemmas relate the members:

- `difference` leads from `a` to `b`.
- `center` is the point half way along the segment.
- `gradient(dim)` scales back to the difference and ignores endpoint order.
- `definedAt` holds exactly on the segment's span.
- `valueAt` gives a point of the segment.
- Conversion keeps the endpoint order.

**`split` and `dumpContainer`** in `nytl/misc.hpp` (module `Misc`, file
`misc.dfy`).

- `Pieces` is the specification of what a `while (std::getline(ss, item,
  delim))` loop extracts. The empty string gives no piece, `"a,,b"` gives
  `"a", "", "b"` and `"a,b,"` gives `"a", "b"`.
- `GetLine` is one successful `getline` call: a loop that reads up to the
  delimiter and consumes it.
- `SplitAppend` is the three-argument `split`. It appends to a caller-owned
  `StringVector`, a class whose `items` field stands for the
  `std::vector<std::string>`, and returns that same vector.
- `Split` is the two-argument wrapper.
- `Join` specifies the separator join.
- `DumpContainer` is the `for` loop with its `first` flag.

Lemmas prove the round trips between `Pieces` and `Join` in both
directions, the piece count, and that no piece holds the delimiter.

## Model

| member | source | states |
|---|---|---|
| Lines.Default | nytl/line.hpp:54-59 | the default-constructed line has both endpoints zero-valued, of dimension D |
| Lines.Difference | nytl/line.hpp:77-78 | the difference has dimension D and a[i] + difference[i] == b[i] for every coordinate |
| Lines.DifferenceLeadsFromAToB | nytl/line.hpp:78 | a + difference() == b, and reversing the line negates the difference |
| Lines.Center | nytl/line.hpp:63 | the center is equidistant from a and b in every coordinate, i.e. (a + b) / 2 |
| Lines.CenterIsHalfWay | nytl/line.hpp:63 | center() is the point at parameter 1/2, is symmetric in a and b, and the line is defined at each of its coordinates |
| Lines.Points | nytl/line.hpp:65-68 | points() has exactly two entries: index 0 is a, index 1 is b |
| Lines.SetPoint | nytl/line.hpp:65-66 | writing a vector of dimension D to entry i of the mutable points() view replaces exactly that endpoint and keeps both endpoints of dimension D |
| Lines.PointsDetermineLine | nytl/line.hpp:65-68 | two lines have the same points() pair exactly when they are equal |
| Lines.Convert | nytl/line.hpp:70-71 | conversion to Line<OD, OP> builds the new line from the converted a and b: shared coordinates kept, extra ones zero |
| Lines.ConvertProperties | nytl/line.hpp:70-71 | conversion keeps endpoint order, is the identity at the same dimension, converts the difference alongside, and keeps definedAt in shared dimensions |
| Lines.ConvertExample | nytl/line.hpp:70-71 | (1,2)-(3,4) converted to dimension 3 is (1,2,0)-(3,4,0) |
| Lines.Gradient | nytl/line.hpp:83-86 | for difference()[dim] != 0, gradient(dim)[dim] == 1 and every component times difference()[dim] is difference()[i] |
| Lines.GradientProperties | nytl/line.hpp:83-86 | gradient(dim) scaled by difference()[dim] is the difference, and gradient(dim) does not depend on endpoint order |
| Lines.SmallestValue | nytl/line.hpp:97-98 | smallestValue(dim) is one of a[dim], b[dim] and at most both (their minimum) |
| Lines.GreatestValue | nytl/line.hpp:100-101 | greatestValue(dim) is one of a[dim], b[dim] and at least both (their maximum) |
| Lines.ValueRange | nytl/line.hpp:97-101 | smallestValue <= greatestValue, both symmetric under swapping a and b, equal exactly when a[dim] == b[dim] |
| Lines.DefinedAt | nytl/line.hpp:88-89 | definedAt(v, dim) holds exactly when v lies between a[dim] and b[dim], in whichever order the endpoints come |
| Lines.DefinedAtIffOnSegment | nytl/line.hpp:88-89 | definedAt(v, dim) holds exactly when some point a + t*(b - a) with t in [0, 1] has coordinate v at dim |
| Lines.DefinedAtParameter | nytl/line.hpp:88-89 | where the line is defined and has extent in dim, the parameter (v - a[dim]) / difference()[dim] lies in [0, 1] |
| Lines.ValueAt | nytl/line.hpp:91-95 | where definedAt holds the result has coordinate v at dim; where it does not, the result is the empty (all-zero) vector |
| Lines.ValueAtOnSegment | nytl/line.hpp:91-95 | where definedAt holds, valueAt(v, dim) equals a + t*difference() for some t in [0, 1] |
| Lines.ValueAtEndpoints | nytl/line.hpp:91-95 | valueAt(a[dim], dim) is a, and valueAt(b[dim], dim) is b when the line has extent in dim |
| Lines.SquaredLength | nytl/line.hpp:62 | the square of size() is non-negative and zero for a degenerate line |
| Lines.SquaredLengthReversed | nytl/line.hpp:62 | the squared length is symmetric under swapping a and b |
| Lines.HorizontalLineExample | nytl/line.hpp:83-101 | for (0,0)-(2,0): definedAt(1, 0), not definedAt(3, 0), valueAt(1, 0) == (1,0), gradient(0) == (1,0), squared length 4 |
| Misc.FirstIndex | nytl/misc.hpp:105 | the index where one getline stops: no delimiter before it, the delimiter at it unless it is the end |
| Misc.PiecesStep | nytl/misc.hpp:105-108 | one getline from a position yields the text up to the next delimiter, and the rest comes from after that delimiter |
| Misc.GetLine | nytl/misc.hpp:105 | one successful getline extracts the next piece and advances past it and its delimiter |
| Misc.SplitAppend | nytl/misc.hpp:100-110 | split(s, delim, elems) only appends: elems becomes its old contents followed by the pieces of s, and the same vector is returned |
| Misc.Split | nytl/misc.hpp:113-118 | split(s, delim) is exactly the pieces of s, i.e. the three-argument form started from an empty vector |
| Misc.PiecesExcludeDelimiter | nytl/misc.hpp:105-108 | no piece contains the delimiter |
| Misc.JoinPieces | nytl/misc.hpp:103-109 | "" gives no pieces; joining the pieces with delim gives s back, plus one delim when s ends in delim |
| Misc.PiecesCount | nytl/misc.hpp:105-108 | the number of pieces is the number of delimiters, plus one when s is non-empty and does not end in delim |
| Misc.PiecesOfJoin | nytl/misc.hpp:103-109 | splitting the join of delimiter-free elements whose last one is non-empty gives the elements back |
| Misc.StringVector.PushBack | nytl/misc.hpp:107 | push_back appends exactly one element |
| Misc.DumpContainer | nytl/misc.hpp:123-137 | dumpContainer returns the join of the elements with sep |
| Misc.JoinSnoc | nytl/misc.hpp:127-134 | each further element adds sep and that element, and the first adds no sep |
| Misc.JoinEnds | nytl/misc.hpp:123-136 | the join of nothing is ""; otherwise it starts with the first element and ends with the last (no leading or trailing sep) |
| Misc.JoinLength | nytl/misc.hpp:123-136 | the join holds the elements' characters plus exactly n - 1 separators |
| Misc.JoinCount | nytl/misc.hpp:123-136 | with a one-character separator absent from the elements, the join holds it exactly n - 1 times |
| Misc.JoinCons | nytl/misc.hpp:130-133 | an element before a non-empty rest is followed by exactly one separator |

## Left out

- `size()`, `length()` and `gradient()` (nytl/line.hpp:62, 75, 81) need a square root and `normalize` on floating point. Only the squared length is modelled, with its symmetry.
- Lines.SquaredLength: states that a degenerate line has squared length zero, not the converse. A line with length zero does have `a == b`, but that direction is not proved.
- Floating-point rounding and the `int`/`unsigned` precisions are not modelled. Coordinates are exact reals, so `center()` of an integer line does not truncate here.
- Lines.Gradient: requires `difference()[dim] != 0`. The source divides by zero there, which gives infinities or NaN for floats and undefined behaviour for integers.
- The bodies of `definedAt` and `valueAt` live in `nytl/bits/line.inl`, which is not part of this model. Their contracts follow the doc comments at nytl/line.hpp:88-95.
- Lines.ValueAt: computes `a + gradient(dim) * (v - a[dim])`. When the line has no extent in `dim` it returns `a`, which is one valid point of the segment. The source's choice for that case is in the missing `line.inl`.
- Lines.ValueAt: outside the range where the line is defined it returns the empty (all-zero) vector, as the doc comment at nytl/line.hpp:91-94 states.
- The warning that `valueAt` sends outside the defined range is output, and is left out.
- The default argument `dimension = 0` of `definedAt` and `valueAt` is not modelled; the dimension is always passed.
- Lines.Convert: `nytl/vec.hpp` holds the per-coordinate conversion and is not part of this model. The coordinate cast between precisions is not modelled. Changing dimension truncates the extra coordinates or fills the missing ones with zero.
- `points()` reinterprets the object's memory as a `Vec<2, VecType>`. It is modelled as an explicit pair, with `SetPoint` for writes through the mutable view. Layout and aliasing are not captured.
- The typedefs (nytl/line.hpp:20-34) and the constants `dim` and `simplexDim` (nytl/line.hpp:41-42) are names only and have no behaviour.
- `unused`, `memberCallback` and `printVars` (nytl/misc.hpp:46-96) wrap member-function pointers or write to an `ostream`. They are left out.
- Misc.DumpContainer: elements are taken as already-rendered strings. Formatting an arbitrary `T` with `operator<<` is not modelled. The default separator `",\n"` is the constant `Misc.DefaultSeparator`.
- Misc.SplitAppend: only end-of-stream ends the loop. Other stream failures, such as running out of memory, are not modelled.
