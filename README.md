# Power-of-two image resizer: the naming and rounding logic

The image_utils script walks a directory. Each image it finds is resized so that both
sides become powers of two, and the copy is saved next to the original. The copy's name
is the original's with `_<width>x<height>` inserted before the extension. This project
models the pure logic of that script and proves its properties:

- `PowerOfTwo` (`power_of_two.dfy`) models `nearest_power_of_two`. It gives the integer
  meaning of `2 ** ceil(log2(value))`: `CeilLog2(n)` is the least `k` with `n <= 2^k`,
  and `NearestPowerOfTwo(n)` is `2^CeilLog2(n)`. The model takes `n >= 1`, because
  `log2` is undefined at zero.
- `Numerals` (`numerals.dfy`) models `str` of a natural number inside the f-string.
  `Decimal(n)` gives the canonical decimal digits of `n`. It is proved to be the inverse
  of `ParseDecimal` in both directions.
- `PosixPath` (`posix_path.dfy`) models `os.path.splitext` on POSIX. The path is split
  at the last `.` after the last `/`, unless that dot belongs to the leading run of dots
  of the file name. Otherwise the extension is empty. `SplitExtSpec` ties the function to
  an independent description of where an extension may start.
- `ImageResize` (`image_resize.dfy`) models the naming step `OutputPath(path, w, h)`.
  It also models `ResizePlan(path, width, height)`, the per-image plan: the new width,
  the new height and the output path. A zero dimension yields `MathDomainError`, which
  stands for the `ValueError` that `math.log2(0)` raises.

## Model

| member | source | states |
|---|---|---|
| `PowerOfTwo.CeilLog2` | main.py:10 | the ceiling of log2 as an integer: `n <= 2^k`, and `2^(k-1) < n` when `k > 0` |
| `PowerOfTwo.NearestPowerOfTwo` | main.py:8-10 | for `n >= 1` the result is a power of two with `n <= r < 2n` |
| `PowerOfTwo.NearestIsLeast` | main.py:9 | every power of two `>= n` is `>=` the result: it is the smallest one, as the docstring says |
| `PowerOfTwo.NearestCharacterization` | main.py:9-10 | `m` is the result exactly when `m` is a power of two in `[n, 2n)`, in both directions |
| `PowerOfTwo.NearestFixedPoint` | main.py:10 | the result equals `n` exactly when `n` is already a power of two |
| `PowerOfTwo.NearestOfPow2` | main.py:10 | `2^k` rounds to itself, so an exact power is not doubled (256 gives 256, not 512) |
| `PowerOfTwo.NearestIdempotent` | main.py:9-10 | rounding an already rounded dimension changes nothing |
| `PowerOfTwo.NearestMonotone` | main.py:9-10 | a larger dimension never rounds to a smaller power of two |
| `PowerOfTwo.NearestExamples` | main.py:8-10 | 300 gives 512, 200 gives 256, 256 gives 256, 1 gives 1 |
| `Numerals.Decimal` | main.py:29 | `str(n)`: a non-empty string of digits with no leading zero unless `n == 0`, and one digit exactly when `n < 10` |
| `Numerals.ParseDecimalOfDecimal` | main.py:29 | reading the rendered digits back gives `n` |
| `Numerals.DecimalOfParseDecimal` | main.py:29 | every canonical numeral is the rendering of its value, so the rendering is a bijection onto canonical numerals |
| `Numerals.DecimalInjective` | main.py:29 | different numbers render differently |
| `Numerals.DecimalExamples` | main.py:29 | 512 renders as "512" and 256 as "256" |
| `PosixPath.LastIndexOf` | main.py:28 | `rfind`: -1 or an index holding the character, with no occurrence after it |
| `PosixPath.SplitExt` | main.py:28 | `splitext`: base + ext is the path; ext is empty or starts with '.', has no '/' and no second '.' |
| `PosixPath.SplitExtSpec` | main.py:28 | ext is non-empty exactly when some index may start an extension (a dot in the last component, with no dot after it, preceded in that component by a non-dot), and then the split is made at that index |
| `PosixPath.SplitExtOfSimpleName` | main.py:28 | in any directory, `stem.suffix` with a plain stem splits into `dir + stem` and `.suffix` |
| `PosixPath.SplitExtExamples` | main.py:28 | `photos/cat.png` and `icons/logo.jpg` split before `.png` and `.jpg` |
| `PosixPath.SplitExtExamplesWithoutExt` | main.py:28 | `.bashrc` and `a.b/c` have an empty extension |
| `ImageResize.DimensionTag` | main.py:29 | the inserted `_WxH` text starts with '_' and contains neither '.' nor '/' |
| `ImageResize.OutputPath` | main.py:28-29 | the output path is longer than the input, never equal to it, starts with the input's base and ends with the input's extension |
| `ImageResize.OutputPathKeepsExtension` | main.py:28-29 | splitting the output path again gives the tagged base and the input's very extension |
| `ImageResize.OutputPathSameDirectory` | main.py:28-32 | the output has the same last '/' and the same text up to it as the input, so it is saved beside the original |
| `ImageResize.DimensionTagInjective` | main.py:29 | the `_WxH` text determines W and H |
| `ImageResize.OutputPathInjective` | main.py:29 | for one input, different dimensions give different output names |
| `ImageResize.ResizePlan` | main.py:16-29 | a plan exists exactly when both sides are positive; then each new side is a power of two in `[side, 2*side)`, the output keeps the input's extension and differs from the input |
| `ImageResize.ResizePlanNamesItsDimensions` | main.py:20-29 | the plan's output path is built from the plan's own new width and height |
| `ImageResize.ResizeDimensionsIndependent` | main.py:20-21 | the new width depends only on the original width, the new height only on the original height |
| `ImageResize.ResizePlanExampleLandscape` | main.py:16-29 | `photos/cat.png` at 300x200 becomes 512x256, saved as `photos/cat_512x256.png` |
| `ImageResize.ResizePlanExampleSquare` | main.py:16-29 | `icons/logo.jpg` at 256x256 keeps its size, saved as `icons/logo_256x256.jpg` |

## Left out

- `PowerOfTwo.NearestPowerOfTwo`: states the docstring's integer meaning, not the floating-point computation of `math.log2` and `math.ceil`. For integers just above 2^53 (for example 2^53 + 1), `log2` rounds to an exact 53.0. The Python then returns 2^53, which is below the value. The model returns the documented smallest power of two that is `>= n`. Image sizes never get near that range.
- Opening the image, reading its size, LANCZOS resampling and saving (main.py:14-16, 25, 32): these are foreign library calls, file I/O and floating-point pixel work. `ResizePlan` takes the size as a parameter instead.
- `process_files_recursively` and the extension filter (main.py:3, 44): they live in the `fs_utils` package. fs_utils is not part of this model, and the walk is filesystem traversal.
- argparse handling, the default file types and every `print` (main.py:17, 22, 33, 46-67): command-line and console I/O with no logic.
- Windows path rules (`ntpath`, with `\` and drive letters): only POSIX `/` paths are modelled.
- Non-integer or negative arguments to `nearest_power_of_two`: image sides are natural numbers. A caller passing 0 gets `MathDomainError` from `ResizePlan`. `NearestPowerOfTwo` itself requires `n >= 1`.
- Python strings are sequences of code points; `seq<char>` is used without any encoding or normalisation.
