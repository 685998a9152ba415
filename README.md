# SF2 competition harness, modelled in Dafny

This project models the exact logic inside the harness that evaluates image-codec
submissions for the SF2 lab competition (`src/cued_sf2_compete/__init__.py`):

- **GithubEscape**: `encode_msg_text_for_github`, the escaping of a GitHub Actions
  annotation. `%` becomes `%25`, `\r` becomes `%0D` and `\n` becomes `%0A`, done by three chained
  `str.replace` calls. `str.replace` is modelled in general, for a non-empty pattern. The chain
  is proved equal to a per-character escape, and unescaping is proved to recover the message.
- **ImageId**: the identifier branch of `collect`. A `cued-sf2://` identifier names a bundled
  sample under `<package>/images`. Any other identifier is a path, with `.mat` added unless it
  is already there. The module also decides the name the image is reported under.
  `removeprefix`/`removesuffix` act only when the affix is present.
- **Loader**: `load`. The imported module is a map from attribute names to opaque values.
  `header_bits`, `encode` and `decode` are probed in that order. Loading fails naming the first
  one missing, and succeeds only when all three are there.
- **Clip**: `np.clip(Z, 0, 255)` on a matrix of integers.
- **Pipeline**: `collect` as a method with its two loops. The first loop resolves, loads and
  encodes every image. The second decodes, clips, compares with the original and counts the
  bits of every image.
  `load_mat_img`, the submission's `encode`, `header_bits` and `decode`, and the external
  `vlctest` are function parameters, where `None` stands for a call that raised. The method is
  proved against a specification function, `Collected`, and it also returns the sequence of
  calls it makes that touch an image: each load, encode and decode.
- **Report**: the loop of `main` over the required group and then the extra group. It computes
  each image's verdict (fail iff `vlc_bits is None` or `total_bits > 40960`), fills that group's
  part of `summary.json`, and ORs the verdicts of required images into `failed`.
- **Competition**: `main` as a whole. It loads the submission, checks the output directory,
  collects both groups and aggregates them. Its result is an explicit `Outcome`, and the exit
  status is derived from that outcome.

The model follows the code as written; in particular:

- An exception from `load_mat_img`, from the submission's `encode`, `header_bits` or `decode`,
  is not caught inside `collect`. The whole run is aborted, not only that image's record. The
  model returns `Abort(stage, index)` for the first such call: first-loop failures come first,
  then decode failures. The same holds for the rms line (line 153), which computes
  `X - Z_actual` outside the `try` and raises when the reconstruction's shape does not
  broadcast against the original's (`Abort(CompareImages, index)`).
- A payload that `vlctest` rejects is meant to make its image fail without stopping the run:
  lines 159-161 record a missing count, and lines 234-236 display one. As written, however, line 214 then calls `int(None)`, so `main` raises. This is shown under
  "Findings" below. `Competition.Run` follows the code. `Report.Intended` is the report the
  code evidently intends.
- `summary.json` is keyed by image name. A later image with the same name overwrites an
  earlier entry, while `failed` still counts every required row (`Report.JsonLastWins`).

Inputs the model takes as parameters: the package directory, whether the output directory
exists, and the externals named above.

## Model

| member | source | states |
|---|---|---|
| GithubEscape.Replace | src/cued_sf2_compete/__init__.py:103 | Python's `str.replace` for a non-empty pattern: scanned from the left, every non-overlapping occurrence is replaced |
| GithubEscape.EncodeMsgTextForGithub | src/cued_sf2_compete/__init__.py:103 | the function itself: `%`, then `\r`, then `\n` replaced in that order; its meaning is stated by the lemmas below |
| GithubEscape.ReplaceSingleChar | src/cued_sf2_compete/__init__.py:103 | `str.replace` with a one-character pattern replaces every occurrence of that character, one character at a time |
| GithubEscape.EncodeIsEscape | src/cued_sf2_compete/__init__.py:103 | the three chained replaces equal the single-pass escape of each character: `%`→`%25`, `\r`→`%0D`, `\n`→`%0A`, anything else unchanged |
| GithubEscape.UnescapeEncode | src/cued_sf2_compete/__init__.py:103 | decoding the three escapes recovers the original message, so no information is lost |
| GithubEscape.EncodeHasNoLineBreaks | src/cued_sf2_compete/__init__.py:103 | the escaped text holds no raw carriage return or line feed |
| GithubEscape.EncodePlain | src/cued_sf2_compete/__init__.py:103 | a message without `%`, `\r` or `\n` is returned unchanged |
| GithubEscape.EscapeChar | src/cued_sf2_compete/__init__.py:103 | a special character escapes to three characters starting with `%`; any other character escapes to itself |
| ImageId.RemovePrefix | src/cued_sf2_compete/__init__.py:137 | `removeprefix` strips the prefix exactly when it is present and otherwise returns the string unchanged |
| ImageId.RemoveSuffix | src/cued_sf2_compete/__init__.py:139 | `removesuffix` strips one copy of the suffix exactly when it is present and otherwise returns the string unchanged |
| ImageId.JoinPath | src/cued_sf2_compete/__init__.py:138 | the `Path` join: an empty component adds nothing, an absolute one replaces the base, otherwise a separator joins the two |
| ImageId.Resolve | src/cued_sf2_compete/__init__.py:136-145 | for a `cued-sf2://` identifier, the file is the rest of the identifier, verbatim, under the bundled images directory, and the name is that rest without one trailing `.mat`; for any other identifier, the name is the identifier and the file is the identifier itself exactly when it ends in `.mat`, otherwise the identifier plus `.mat` |
| ImageId.ResolveLocalIdempotent | src/cued_sf2_compete/__init__.py:140-143 | a file name resolved from a path identifier is not in the sample namespace and resolves to itself |
| Loader.Load | src/cued_sf2_compete/__init__.py:78-92 | loading succeeds iff all three capabilities are attributes of the module, and then holds exactly those three attributes; otherwise it fails with the message naming the first missing one in the order `header_bits`, `encode`, `decode` |
| Loader.MissingMessageInjective | src/cued_sf2_compete/__init__.py:83-91 | the three error messages differ, one for each capability |
| Loader.LoadFailureNames | src/cued_sf2_compete/__init__.py:80-91 | a failure naming a capability means that capability is missing and every capability probed before it is present |
| Clip.Clamp | src/cued_sf2_compete/__init__.py:152 | the result lies in [0,255], equals the input when the input is in range, and is the nearer bound otherwise |
| Clip.ClipImage | src/cued_sf2_compete/__init__.py:152 | clipping keeps the shape, puts every entry in [0,255] and clamps each entry on its own |
| Clip.ClipInRange | src/cued_sf2_compete/__init__.py:152 | an image already in range is unchanged by clipping |
| Clip.ClipIdempotent | src/cued_sf2_compete/__init__.py:152 | clipping twice is the same as clipping once |
| Clip.ClipMonotone | src/cued_sf2_compete/__init__.py:152 | an entry-wise smaller image clips to an entry-wise smaller image |
| Pipeline.EncodeProcess | src/cued_sf2_compete/__init__.py:94-98 | `encode_process`: the encode result together with the header size `header_bits` declares for it, or nothing when either call raises |
| Pipeline.CountBits | src/cued_sf2_compete/__init__.py:155-163 | when `vlctest` raises, both payload bits and total bits are missing; otherwise the total is payload bits plus the declared header bits |
| Pipeline.ImageFails | src/cued_sf2_compete/__init__.py:205-209 | the per-image verdict: fail when the payload count is missing or the total exceeds 40960 |
| Pipeline.PassIffWithinBudget | src/cued_sf2_compete/__init__.py:205-209 | an image passes exactly when its total bit count is known and at most 40960 |
| Pipeline.BudgetBoundary | src/cued_sf2_compete/__init__.py:208 | the comparison is strict: 40960 bits passes and 40961 fails |
| Pipeline.PrepareOne | src/cued_sf2_compete/__init__.py:136-148 | one step of the first loop fails at the load exactly when `load_mat_img` raises on the resolved file name, and at the encode exactly when the load succeeds and `encode` or `header_bits` raises; otherwise it yields the resolved display name, the loaded image and that image's encoding |
| Pipeline.EncodeAll | src/cued_sf2_compete/__init__.py:135-148 | the first loop stops at the first identifier that cannot be loaded or encoded; when there is none it yields every encoded image in order; its calls alternate load and encode per image, ending at the call that raised |
| Pipeline.DecodeAll | src/cued_sf2_compete/__init__.py:149-163 | the second loop stops at the first image that cannot be decoded or whose clipped reconstruction cannot be subtracted from the original; when there is none it yields every finished row in order, after calling the decoder once per image |
| Pipeline.Collect | src/cued_sf2_compete/__init__.py:133-165 | the two loops return the rows `Collected` specifies, or abort at the call `Collected` names; the calls are a load and an encode per image up to the first failure, then all decodes up to the first failure |
| Pipeline.CollectedRows | src/cued_sf2_compete/__init__.py:134-163 | each returned row carries the display name its identifier resolves to and the image loaded from the resolved file; it also carries that image's encoding, the decoding of that encoding, the clipped decoding (which broadcasts against the original), and `vlctest`'s count with the total accounted from it |
| Pipeline.CollectedAborts | src/cued_sf2_compete/__init__.py:135-150 | an abort names the first identifier that cannot be loaded or encoded, and the stage that raised; only when every one encodes does it name the first image that cannot be decoded or compared with its original |
| Pipeline.CollectTraceOrdered | src/cued_sf2_compete/__init__.py:135-150 | every load and encode comes before every decode, each image is encoded only after it was loaded and decoded only after it was encoded, no call is repeated, and over a non-empty list the first call loads the first image |
| Report.EnterGroup | src/cued_sf2_compete/__init__.py:204-251 | the loop over one group stops at the first row without a total; otherwise it enters every row's verdict under its name, and ORs the verdicts into `fail` only for the required group |
| Report.Aggregate | src/cued_sf2_compete/__init__.py:183-254 | the loop over both groups returns exactly what `Verdict` specifies: the intended report, or a crash at the first row whose total is missing |
| Report.JsonOf | src/cued_sf2_compete/__init__.py:211-215 | a group's part of `summary.json`: rows entered in order under their names, each with its verdict and total |
| Report.Verdict | src/cued_sf2_compete/__init__.py:196-254 | the report loop as written: it raises at the first row, required group first, whose total is missing, and otherwise writes the intended report |
| Report.JsonKeys | src/cued_sf2_compete/__init__.py:211-215 | a group's json has exactly one key per image name in the group |
| Report.JsonLastWins | src/cued_sf2_compete/__init__.py:211-215 | the entry under a name records the verdict and total of the last row with that name |
| Report.Intended | src/cued_sf2_compete/__init__.py:183-254 | `failed` holds iff some required image fails; extra images never affect it, and it starts false when the required group is empty |
| Report.VerdictCompletes | src/cued_sf2_compete/__init__.py:196-254 | the loop completes exactly when every row of both groups has a total, and then yields the intended report |
| Report.VerdictCrashSite | src/cued_sf2_compete/__init__.py:214 | a crash names the first row without a total, looking at the required group before the extra group |
| Report.MalformedPayloadCrashes | src/cued_sf2_compete/__init__.py:206-214 | a row whose payload `vlctest` rejected, in either group, makes the loop raise |
| Report.ExtraMalformedScenario | src/cued_sf2_compete/__init__.py:214 | take a required image of 30000 bits and an extra image with a malformed payload: the intended report passes the run with the extra image marked failed and its total null; the loop as written raises |
| Report.IntendedRecordsMalformed | src/cued_sf2_compete/__init__.py:205-215 | in the intended report, an extra image with a rejected payload is entered as failed with a null total |
| Report.IntendedRecordsMalformedRequired | src/cued_sf2_compete/__init__.py:205-215 | in the intended report, a required image with a rejected payload is entered as failed with a null total, and the run fails |
| Competition.Run | src/cued_sf2_compete/__init__.py:174-263 | `main` as a function: a load failure, a missing output directory, an abort in either collect, a crash in the report loop, or the completed report |
| Competition.ExitFailure | src/cued_sf2_compete/__init__.py:262-263 | the process exits with a failure status unless the run completed with `failed` false |
| Competition.RunMain | src/cued_sf2_compete/__init__.py:174-263 | `main` ends with the outcome `Run` specifies and makes the calls `RunTrace` specifies |
| Competition.EarlyAbortTouchesNoImage | src/cued_sf2_compete/__init__.py:175-181 | a missing capability or a missing output directory stops the run with a failure status before any image is loaded or any worker is started: it makes no call at all |
| Competition.ExitStatus | src/cued_sf2_compete/__init__.py:262-263 | the process exits successfully iff the run completes and no required image fails |
| Competition.MalformedPayloadCrashesRun | src/cued_sf2_compete/__init__.py:193-214 | once both groups are collected, a payload rejected by `vlctest` in either group makes `main` raise in its report loop |
| Competition.RequiredCallsFirst | src/cued_sf2_compete/__init__.py:193-194 | every call for a required image comes before any call for an extra image |

## Findings

| source | as written | input that shows it | evidently intended | confidence | as-written member | corrected member |
|---|---|---|---|---|---|---|
| src/cued_sf2_compete/__init__.py:214 | `total_bits=int(row['total_bits'])` is evaluated for every row, including rows where `vlctest` raised and `total_bits` is `None`, so `int(None)` raises `TypeError` | required `imgA` of 30000 bits together with an extra image `imgB` whose payload `vlctest` rejects | record the image as failed with a null total and carry on; `failed` then depends on required images only | high (the table code at lines 234-236 handles the missing count); not executed | Report.Verdict (shown by Report.ExtraMalformedScenario and Report.MalformedPayloadCrashes) | Report.Intended (Report.IntendedRecordsMalformed, Report.IntendedRecordsMalformedRequired) |

## Left out

- Process isolation (`run_encoder`, `run_decoder`, `ProcessPoolExecutor`, lines 121-131) involves OS processes and concurrency. A worker call is a function parameter that returns a value or `None`.
- The module is re-loaded inside each worker (lines 95, 126). The model assumes the worker sees the same module as the parent.
- `run_isolated`'s traceback annotations and `print` of `::error` lines (lines 105-119), and the `::set-output` line (lines 258-260), are console I/O driven by the environment. Only the escaping function is modelled.
- `importlib.import_module` (line 79) is a dynamic import. The module is given as its map of attributes.
- The rms value itself (`np.std`, line 153), `diff_image` and the colormap (lines 35-60) are floating point. The json entries have no `rms` field.
- The `uint8` cast after clipping (line 152) is not modelled: after clipping to [0,255] it changes no integer.
- Whether `X - Z_actual` broadcasts (line 153) follows numpy's shape rules; it is the opaque parameter `broadcasts`.
- The externals are mathematical functions, so the same input always gives the same result. An identifier listed both under `--required` and among the positional images is encoded and decoded twice, in separate worker processes (lines 193-194). The model gives both runs the same outcome, which holds only for a deterministic submission.
- `load_mat_img` and `vlctest` (lines 144, 156) belong to an external library and are opaque parameters. An exception from `vlctest` other than `ValueError`, and the text of the `ValueError`, are not modelled.
- The read-only flag on the loaded image (line 147) is not modelled: images are immutable values in the model.
- The HTML summary table, PNG/SVG/pickle writing, base64 embedding and the writing of `summary.json` to disk (lines 168-171, 185-256) are file output. The content of `summary.json` is modelled, but not its file format.
- How the output directory is chosen (lines 176-179) is not modelled. Only whether it exists is a parameter.
- The `docopt` command line (lines 266-275) and `setup.py` are argument parsing and packaging.
- ImageId.JoinPath: `pathlib` joining drops an empty component and lets an absolute one replace the base; both are modelled. Other normalisation, such as a doubled separator, a trailing separator or `.` components, is not modelled. For example `cued-sf2://lena.mat/` gives the file `<package>/images/lena.mat/` here, where Python gives `<package>/images/lena.mat`.
- ImageId.Resolve: inherits that gap from `JoinPath` for `cued-sf2://` identifiers.
- GithubEscape.Replace: only non-empty patterns are modelled; the harness calls it with nothing else.
- The dead local `total_bits = 0` (line 158) has no effect and is not modelled.
